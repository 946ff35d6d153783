/** The cache against the list of all keys by their last request. */
module LruRefinement {
  import opened Collections
  import opened JsMap
  import opened Cache
  import opened CacheTraces

  /** All keys ever requested with their last request time, the most recently requested first. */
  function Recency<T>(trace: seq<Request<T>>): seq<Entry<string, int>> {
    if trace == [] then []
    else Front(Recency(trace[..|trace| - 1]), trace[|trace| - 1].key, trace[|trace| - 1].nowMs)
  }

  function Front(recent: seq<Entry<string, int>>, key: string, nowMs: int): seq<Entry<string, int>> {
    [Entry(key, nowMs)] + Delete(recent, key)
  }

  function Min(a: nat, b: nat): nat {
    if a < b then a else b
  }

  function TimeOf<T>(m: CacheMap<T>, key: string): Option<int> {
    var e := Get(m, key);
    if e.Some? then Some(e.value.lastAccessMs) else None
  }

  // ----- what the four changes do to the times

  lemma FrontTimes(head: seq<Entry<string, int>>, k: string, nowMs: int, q: string)
    requires Distinct(head)
    ensures Get(Front(head, k, nowMs), q) == if q == k then Some(nowMs) else Get(head, q)
  {
    GetAfterDelete(head, k, q);
    hide Delete;
    assert Front(head, k, nowMs)[1..] == Delete(head, k);
  }

  lemma FrontKeepsDistinct(head: seq<Entry<string, int>>, k: string, nowMs: int)
    requires Distinct(head)
    ensures Distinct(Front(head, k, nowMs))
    ensures |Front(head, k, nowMs)| == if Get(head, k).Some? then |head| else |head| + 1
  {
    DeleteKeepsDistinct(head, k);
    hide Delete;
    var d := Delete(head, k);
    assert !Has(d, k);
    forall i | 0 <= i < |d| ensures d[i].key != k {
      assert d[i].key == k ==> Has(d, k);
    }
  }

  lemma TimeAfterSet<T>(m: CacheMap<T>, k: string, e: CacheEntry<T>, q: string)
    ensures TimeOf(Set(m, k, e), q) == if q == k then Some(e.lastAccessMs) else TimeOf(m, q)
  {
    GetAfterSet(m, k, e, q);
  }

  lemma TimeAfterDelete<T>(m: CacheMap<T>, k: string, q: string)
    requires Distinct(m)
    ensures TimeOf(Delete(m, k), q) == if q == k then None else TimeOf(m, q)
  {
    GetAfterDelete(m, k, q);
  }

  /** The entry given up: none was used before it. */
  lemma VictimIsOldest<T>(m: CacheMap<T>, q: string)
    requires Distinct(m) && m != [] && TimeOf(m, q).Some?
    ensures var victim := m[LeastUsed(m, |m|)].key;
      TimeOf(m, victim).Some? && TimeOf(m, victim).value <= TimeOf(m, q).value
  {
    var v := LeastUsed(m, |m|);
    hide LeastUsed;
    GetIsTheEntry(m, v);
    var i :| 0 <= i < |m| && m[i] == Entry(q, Get(m, q).value);
    assert !UsedBefore(m[i].value, m[v].value);
  }

  // ----- a clock that may stand still

  /** The kept keys carry their last request times, and none is older than a key no longer kept. */
  ghost predicate KeepsTheLatest<T>(m: CacheMap<T>, capacity: nat, recent: seq<Entry<string, int>>) {
    && Distinct(m) && Distinct(recent)
    && |m| == Min(capacity, |recent|)
    && (forall k :: TimeOf(m, k).Some? ==> Get(recent, k) == TimeOf(m, k))
    && (|m| < capacity ==> forall q :: Get(recent, q).Some? ==> TimeOf(m, q).Some?)
    && (forall k, q :: TimeOf(m, k).Some? && Get(recent, q).Some? && TimeOf(m, q).None? ==>
          Get(recent, q).value <= TimeOf(m, k).value)
  }

  ghost predicate IsPast(recent: seq<Entry<string, int>>, nowMs: int) {
    forall q :: Get(recent, q).Some? ==> Get(recent, q).value <= nowMs
  }

  /** A present entry is refreshed, or a new one added while there is room. */
  lemma SetKeepsTheLatest<T>(m: CacheMap<T>, capacity: nat, recent: seq<Entry<string, int>>, k: string, e: CacheEntry<T>)
    requires KeepsTheLatest(m, capacity, recent) && IsPast(recent, e.lastAccessMs)
    requires TimeOf(m, k).Some? || |m| < capacity
    ensures KeepsTheLatest(Set(m, k, e), capacity, Front(recent, k, e.lastAccessMs))
  {
    hide Set, Front, Get;
    SetKeepsDistinct(m, k, e);
    FrontKeepsDistinct(recent, k, e.lastAccessMs);
    assert TimeOf(m, k).Some? <==> Has(m, k);
    forall q
      ensures TimeOf(Set(m, k, e), q) == if q == k then Some(e.lastAccessMs) else TimeOf(m, q)
      ensures Get(Front(recent, k, e.lastAccessMs), q) == if q == k then Some(e.lastAccessMs) else Get(recent, q)
    {
      TimeAfterSet(m, k, e, q);
      FrontTimes(recent, k, e.lastAccessMs, q);
    }
    hide TimeOf;
  }

  lemma EvictKeepsTheLatest<T>(m: CacheMap<T>, capacity: nat, recent: seq<Entry<string, int>>, k: string, e: CacheEntry<T>)
    requires KeepsTheLatest(m, capacity, recent) && IsPast(recent, e.lastAccessMs)
    requires TimeOf(m, k).None? && |m| == capacity >= 1
    ensures KeepsTheLatest(Set(Delete(m, m[LeastUsed(m, |m|)].key), k, e), capacity, Front(recent, k, e.lastAccessMs))
  {
    hide Set, Front, Get, Delete, LeastUsed;
    var victim := m[LeastUsed(m, |m|)].key;
    var room := Delete(m, victim);
    DeleteKeepsDistinct(m, victim);
    SetKeepsDistinct(room, k, e);
    FrontKeepsDistinct(recent, k, e.lastAccessMs);
    assert Has(m, victim) && !Has(m, k);
    forall q | TimeOf(m, q).Some?
      ensures TimeOf(m, victim).Some? && TimeOf(m, victim).value <= TimeOf(m, q).value
    {
      VictimIsOldest(m, q);
    }
    forall q
      ensures TimeOf(Set(room, k, e), q) ==
              if q == k then Some(e.lastAccessMs) else if q == victim then None else TimeOf(m, q)
      ensures Get(Front(recent, k, e.lastAccessMs), q) == if q == k then Some(e.lastAccessMs) else Get(recent, q)
    {
      TimeAfterDelete(m, victim, q);
      TimeAfterSet(room, k, e, q);
      FrontTimes(recent, k, e.lastAccessMs, q);
    }
    hide TimeOf;
  }

  lemma AnswerKeepsTheLatest<T>(m: CacheMap<T>, capacity: nat, recent: seq<Entry<string, int>>, r: Request<T>)
    requires capacity >= 1 && KeepsTheLatest(m, capacity, recent) && IsPast(recent, r.nowMs)
    ensures KeepsTheLatest(Answer(m, capacity, r).0, capacity, Front(recent, r.key, r.nowMs))
  {
    SizeIsWithinCapacity(m, capacity, recent);
    hide KeepsTheLatest, IsPast, Front, Set, Delete, LeastUsed;
    var read := CacheEntry(r.direct, r.nowMs, r.nowMs);
    if DecideCache(r.key, m, r.nowMs, SESSION_CACHE_TTL_MS).Hit? {
      var hit: CacheEntry<T> := Get(m, r.key).value;
      SetKeepsTheLatest(m, capacity, recent, r.key, hit.(lastAccessMs := r.nowMs));
    } else if Has(m, r.key) || |m| < capacity {
      SetKeepsTheLatest(m, capacity, recent, r.key, read);
    } else {
      EvictKeepsTheLatest(m, capacity, recent, r.key, read);
    }
  }

  lemma SizeIsWithinCapacity<T>(m: CacheMap<T>, capacity: nat, recent: seq<Entry<string, int>>)
    requires KeepsTheLatest(m, capacity, recent)
    ensures |m| <= capacity
  {
  }

  /** The position of the last request of a key. */
  function LastRequest<T>(trace: seq<Request<T>>, key: string): (i: Option<nat>)
    ensures i.Some? ==> i.value < |trace| && trace[i.value].key == key
  {
    if trace == [] then None
    else if trace[|trace| - 1].key == key then Some(|trace| - 1)
    else LastRequest(trace[..|trace| - 1], key)
  }

  lemma {:induction false} LastRequestTime<T>(trace: seq<Request<T>>, key: string)
    ensures Distinct(Recency(trace))
    ensures Get(Recency(trace), key) ==
            match LastRequest(trace, key) case None => None case Some(i) => Some(trace[i].nowMs)
  {
    if trace != [] {
      hide Front, Get;
      var n := |trace| - 1;
      LastRequestTime(trace[..n], key);
      FrontTimes(Recency(trace[..n]), trace[n].key, trace[n].nowMs, key);
      FrontKeepsDistinct(Recency(trace[..n]), trace[n].key, trace[n].nowMs);
    } else {
      assert Recency(trace) == [];
    }
  }

  lemma {:induction false} RecencyIsPast<T>(trace: seq<Request<T>>, nowMs: int)
    requires forall i :: 0 <= i < |trace| ==> trace[i].nowMs <= nowMs
    ensures Distinct(Recency(trace)) && IsPast(Recency(trace), nowMs)
  {
    LastRequestTime(trace, "");
    hide Recency, LastRequest, Get;
    forall q | Get(Recency(trace), q).Some? ensures Get(Recency(trace), q).value <= nowMs {
      LastRequestTime(trace, q);
    }
  }

  /** Whatever readings requests share, the cache is as full as it can be, and no kept key was last requested before
      a key it no longer keeps. */
  lemma {:induction false} CacheKeepsTheLatest<T>(capacity: nat, trace: seq<Request<T>>)
    requires capacity >= 1 && ClockMonotone(trace)
    ensures KeepsTheLatest(Serve(capacity, trace).0, capacity, Recency(trace))
    decreases |trace|
  {
    if trace != [] {
      hide KeepsTheLatest, Front, Answer;
      var n := |trace| - 1;
      CacheKeepsTheLatest(capacity, trace[..n]);
      RecencyIsPast(trace[..n], trace[n].nowMs);
      AnswerKeepsTheLatest(Serve(capacity, trace[..n]).0, capacity, Recency(trace[..n]), trace[n]);
    }
  }

  /** The session cache itself, over any scans: 500 keys as soon as so many were requested, and none of them older
      than a key that was given up. */
  lemma SessionCacheKeepsTheLatest<T>(trace: seq<Request<T>>, kept: string, gone: string)
    requires ClockMonotone(trace)
    ensures |Serve(CACHE_CAPACITY, trace).0| == Min(CACHE_CAPACITY, |Recency(trace)|)
    ensures Has(Serve(CACHE_CAPACITY, trace).0, kept) && !Has(Serve(CACHE_CAPACITY, trace).0, gone)
            && Has(Recency(trace), gone) ==>
              Has(Recency(trace), kept) && Get(Recency(trace), gone).value <= Get(Recency(trace), kept).value
  {
    CacheKeepsTheLatest(CACHE_CAPACITY, trace);
    var m := Serve(CACHE_CAPACITY, trace).0;
    hide Serve, Recency, Get;
    assert TimeOf(m, kept).Some? <==> Has(m, kept);
    assert TimeOf(m, gone).Some? <==> Has(m, gone);
  }

  // ----- exactly when the victim is the least recently requested key

  /** The oldest reading belongs to one entry alone. */
  ghost predicate OneOldest<T>(m: CacheMap<T>) {
    exists i :: 0 <= i < |m| && IsAloneOldest(m, i)
  }

  predicate IsAloneOldest<T>(m: CacheMap<T>, i: nat)
    requires i < |m|
  {
    forall j :: 0 <= j < |m| && j != i ==> m[i].value.lastAccessMs < m[j].value.lastAccessMs
  }

  /** `at[i]` is when entry `i` was last requested, in an order of requests that agrees with the readings. */
  predicate IsRequestOrder<T>(m: CacheMap<T>, at: seq<int>) {
    && |at| == |m|
    && (forall i, j :: 0 <= i < j < |at| ==> at[i] != at[j])
    && (forall i, j :: 0 <= i < |m| && 0 <= j < |m| && m[i].value.lastAccessMs < m[j].value.lastAccessMs ==> at[i] < at[j])
  }

  predicate IsEarliest(at: seq<int>, i: nat)
    requires i < |at|
  {
    forall j :: 0 <= j < |at| ==> at[i] <= at[j]
  }

  /** The victim is the least recently requested entry under every order of requests with these readings exactly
      when the oldest reading belongs to one entry alone. */
  lemma VictimIsLeastRecentExactlyWithoutTies<T>(m: CacheMap<T>)
    requires m != []
    ensures OneOldest(m) <==> forall at :: IsRequestOrder(m, at) ==> IsEarliest(at, LeastUsed(m, |m|))
  {
    var v := LeastUsed(m, |m|);
    if OneOldest(m) {
      forall at | IsRequestOrder(m, at) ensures IsEarliest(at, v) {
        UntiedVictimIsEarliest(m, at);
      }
    } else {
      assert !IsAloneOldest(m, v);
      var j :| 0 <= j < |m| && j != v && !(m[v].value.lastAccessMs < m[j].value.lastAccessMs);
      var at := OrderStartingAt(m, j);
      TiedOrder(m, j);
      assert !IsEarliest(at, v) by {
        assert !UsedBefore(m[j].value, m[v].value);
        TiedOrderPutsFirst(m, j, v);
      }
    }
  }

  lemma UntiedVictimIsEarliest<T>(m: CacheMap<T>, at: seq<int>)
    requires m != [] && OneOldest(m) && IsRequestOrder(m, at)
    ensures IsEarliest(at, LeastUsed(m, |m|))
  {
    var v := LeastUsed(m, |m|);
    var i :| 0 <= i < |m| && IsAloneOldest(m, i);
    assert !UsedBefore(m[i].value, m[v].value);
    assert i == v;
  }

  /** An order that agrees with the readings and, among equal ones, puts entry `first` first. */
  function OrderStartingAt<T>(m: CacheMap<T>, first: nat): (at: seq<int>) {
    seq(|m|, i requires 0 <= i < |m| => m[i].value.lastAccessMs * (|m| + 1) + (if i == first then 0 else i + 1))
  }

  lemma {:induction false} AtLeastOnce(d: int, n: nat)
    requires d >= 1
    ensures d * n >= n
    decreases d
  {
    if d > 1 {
      AtLeastOnce(d - 1, n);
      assert d * n == (d - 1) * n + n;
    }
  }

  lemma ScaledOrder(x: int, y: int, n: nat, a: nat, b: nat)
    requires x < y && a < n
    ensures x * n + a < y * n + b
  {
    AtLeastOnce(y - x, n);
    assert (y - x) * n == y * n - x * n;
  }

  lemma TiedOrder<T>(m: CacheMap<T>, first: nat)
    requires first < |m|
    ensures IsRequestOrder(m, OrderStartingAt(m, first))
  {
    var at, n := OrderStartingAt(m, first), |m| + 1;
    forall i, j | 0 <= i < |m| && 0 <= j < |m|
      ensures m[i].value.lastAccessMs < m[j].value.lastAccessMs ==> at[i] < at[j]
      ensures i < j ==> at[i] != at[j]
    {
      var x, y := m[i].value.lastAccessMs, m[j].value.lastAccessMs;
      var a, b := if i == first then 0 else i + 1, if j == first then 0 else j + 1;
      assert at[i] == x * n + a && at[j] == y * n + b;
      if x < y {
        ScaledOrder(x, y, n, a, b);
      } else if y < x {
        ScaledOrder(y, x, n, b, a);
      }
    }
  }

  lemma TiedOrderPutsFirst<T>(m: CacheMap<T>, first: nat, other: nat)
    requires first < |m| && other < |m| && first != other
    requires m[first].value.lastAccessMs == m[other].value.lastAccessMs
    ensures OrderStartingAt(m, first)[first] < OrderStartingAt(m, first)[other]
  {
  }

  lemma EntryTime<T>(capacity: nat, trace: seq<Request<T>>, k: nat)
    requires capacity >= 1 && ClockMonotone(trace) && k < |Serve(capacity, trace).0|
    ensures var e := Serve(capacity, trace).0[k];
      LastRequest(trace, e.key).Some? && trace[LastRequest(trace, e.key).value].nowMs == e.value.lastAccessMs
  {
    var m := Serve(capacity, trace).0;
    CacheKeepsTheLatest(capacity, trace);
    LastRequestTime(trace, m[k].key);
    GetIsTheEntry(m, k);
    hide Serve, Recency, LastRequest, Get;
  }

  /** So in any run, an untied victim is the kept key whose last request lies furthest back, equal readings elsewhere
      or not. */
  lemma UntiedVictimIsLeastRecent<T>(capacity: nat, trace: seq<Request<T>>, i: nat)
    requires capacity >= 1 && ClockMonotone(trace) && OneOldest(Serve(capacity, trace).0)
    requires i < |Serve(capacity, trace).0|
    ensures var m := Serve(capacity, trace).0;
      var victim := m[LeastUsed(m, |m|)].key;
      LastRequest(trace, victim).Some? && LastRequest(trace, m[i].key).Some?
      && LastRequest(trace, victim).value <= LastRequest(trace, m[i].key).value
  {
    var m := Serve(capacity, trace).0;
    forall k | 0 <= k < |m|
      ensures LastRequest(trace, m[k].key).Some?
              && trace[LastRequest(trace, m[k].key).value].nowMs == m[k].value.lastAccessMs
    {
      EntryTime(capacity, trace, k);
    }
    CacheKeepsTheLatest(capacity, trace);
    hide Serve, Recency, LastRequest, LeastUsed, Get, TimeOf, OneOldest;
    var at: seq<int> := seq(|m|, k requires 0 <= k < |m| => LastRequest(trace, m[k].key).value);
    PositionsAreARequestOrder(m, trace, at);
    UntiedVictimIsEarliest(m, at);
  }

  lemma PositionsAreARequestOrder<T>(m: CacheMap<T>, trace: seq<Request<T>>, at: seq<int>)
    requires Distinct(m) && ClockMonotone(trace) && |at| == |m|
    requires forall k :: 0 <= k < |m| ==> IsRequestOf(trace, at[k], m[k])
    ensures IsRequestOrder(m, at)
  {
    forall i, j | 0 <= i < |m| && 0 <= j < |m| && m[i].value.lastAccessMs < m[j].value.lastAccessMs ensures at[i] < at[j] {
      LaterReadingIsLater(trace, at[i], at[j]);
    }
  }

  predicate IsRequestOf<T>(trace: seq<Request<T>>, at: int, e: Entry<string, CacheEntry<T>>) {
    0 <= at < |trace| && trace[at].key == e.key && trace[at].nowMs == e.value.lastAccessMs
  }

  lemma LaterReadingIsLater<T>(trace: seq<Request<T>>, a: nat, b: nat)
    requires ClockMonotone(trace) && a < |trace| && b < |trace| && trace[a].nowMs < trace[b].nowMs
    ensures a < b
  {
  }

  // ----- the textbook LRU list, while no eviction is tied

  /** The keys of a list whose times do not rise towards the end. */
  ghost predicate Descending(recent: seq<Entry<string, int>>) {
    && Distinct(recent)
    && forall i, j :: 0 <= i < j < |recent| ==> recent[i].value >= recent[j].value
  }

  /** The cache and the head of the recency list give every key the same last request time. */
  ghost predicate Agrees<T>(m: CacheMap<T>, head: seq<Entry<string, int>>) {
    && Distinct(m) && |m| == |head|
    && forall k :: TimeOf(m, k) == Get(head, k)
  }

  ghost predicate Refines<T>(m: CacheMap<T>, capacity: nat, recent: seq<Entry<string, int>>) {
    && Descending(recent)
    && Agrees(m, recent[..Min(capacity, |recent|)])
  }

  lemma WithoutOneIsDescending(recent: seq<Entry<string, int>>, p: nat)
    requires Descending(recent) && p < |recent|
    ensures var d := recent[..p] + recent[p + 1..];
      Descending(d) && forall i :: 0 <= i < |d| ==> d[i].key != recent[p].key && d[i] in recent
  {
    var d := recent[..p] + recent[p + 1..];
    forall i | 0 <= i < |d| ensures d[i] in recent && d[i].key != recent[p].key {
      var a := if i < p then i else i + 1;
      assert d[i] == recent[a] && recent[a].key != recent[p].key;
    }
    forall i, j | 0 <= i < j < |d| ensures d[i].key != d[j].key && d[i].value >= d[j].value {
      var a, b := if i < p then i else i + 1, if j < p then j else j + 1;
      assert d[i] == recent[a] && d[j] == recent[b] && a < b;
    }
  }

  /** Moving a key to the front keeps a recency list. */
  lemma FrontIsDescending(recent: seq<Entry<string, int>>, k: string, nowMs: int)
    requires Descending(recent) && forall x :: x in recent ==> x.value <= nowMs
    ensures Descending(Front(recent, k, nowMs))
    ensures forall x :: x in Front(recent, k, nowMs) ==> x.value <= nowMs
  {
    hide Descending;
    var d := Delete(recent, k);
    if Has(recent, k) {
      var p := DeleteRemovesOne(recent, k);
      WithoutOneIsDescending(recent, p);
    } else {
      DeleteOfAbsentKey(recent, k);
      AbsentKey(recent, k);
    }
    hide Delete, Has;
    HeadStaysFirst(d, Entry(k, nowMs));
  }

  lemma AbsentKey(recent: seq<Entry<string, int>>, k: string)
    requires !Has(recent, k)
    ensures forall i :: 0 <= i < |recent| ==> recent[i].key != k && recent[i] in recent
  {
  }

  lemma HeadStaysFirst(d: seq<Entry<string, int>>, first: Entry<string, int>)
    requires Descending(d) && forall i :: 0 <= i < |d| ==> d[i].key != first.key && d[i].value <= first.value
    ensures Descending([first] + d)
    ensures forall x :: x in [first] + d ==> x.value <= first.value
  {
  }

  lemma {:induction false} RecencyIsDescending<T>(trace: seq<Request<T>>, nowMs: int)
    requires ClockMonotone(trace) && forall i :: 0 <= i < |trace| ==> trace[i].nowMs <= nowMs
    ensures Descending(Recency(trace))
    ensures forall x :: x in Recency(trace) ==> x.value <= nowMs
    decreases |trace|
  {
    if trace != [] {
      hide Front, Descending;
      var n := |trace| - 1;
      RecencyIsDescending(trace[..n], trace[n].nowMs);
      FrontIsDescending(Recency(trace[..n]), trace[n].key, trace[n].nowMs);
    }
  }

  lemma HeadIsDistinct(recent: seq<Entry<string, int>>, n: nat)
    requires Distinct(recent) && n <= |recent|
    ensures Distinct(recent[..n])
  {
  }

  /** A key that moves to the front of the list moves to the front of the head it was in. */
  lemma FrontOfHead(recent: seq<Entry<string, int>>, k: string, nowMs: int, n: nat)
    requires n <= |recent| && Has(recent[..n], k) && Distinct(recent)
    ensures |Front(recent, k, nowMs)| == |recent|
    ensures Front(recent, k, nowMs)[..n] == Front(recent[..n], k, nowMs)
  {
    assert recent == recent[..n] + recent[n..];
    DeleteInHead(recent[..n], recent[n..], k);
    HeadIsDistinct(recent, n);
    DeleteKeepsDistinct(recent[..n], k);
  }

  lemma SetAgrees<T>(m: CacheMap<T>, head: seq<Entry<string, int>>, k: string, e: CacheEntry<T>)
    requires Agrees(m, head) && Distinct(head)
    ensures Agrees(Set(m, k, e), Front(head, k, e.lastAccessMs))
  {
    hide Set, Front, Get;
    SetKeepsDistinct(m, k, e);
    FrontKeepsDistinct(head, k, e.lastAccessMs);
    assert TimeOf(m, k) == Get(head, k) && (TimeOf(m, k).Some? <==> Has(m, k));
    forall q ensures TimeOf(Set(m, k, e), q) == Get(Front(head, k, e.lastAccessMs), q) {
      TimeAfterSet(m, k, e, q);
      FrontTimes(head, k, e.lastAccessMs, q);
    }
  }

  /** A present entry is refreshed, or a new one added while there is room. */
  lemma SetRefines<T>(m: CacheMap<T>, capacity: nat, recent: seq<Entry<string, int>>, k: string, e: CacheEntry<T>)
    requires Refines(m, capacity, recent) && (Has(m, k) || |m| < capacity)
    requires forall x :: x in recent ==> x.value <= e.lastAccessMs
    ensures Refines(Set(m, k, e), capacity, Front(recent, k, e.lastAccessMs))
  {
    hide Set, Front, Delete;
    var n := Min(capacity, |recent|);
    HeadIsDistinct(recent, n);
    FrontIsDescending(recent, k, e.lastAccessMs);
    SetAgrees(m, recent[..n], k, e);
    assert TimeOf(m, k) == Get(recent[..n], k);
    if Has(recent[..n], k) {
      FrontOfHead(recent, k, e.lastAccessMs, n);
    } else {
      assert recent[..n] == recent;
      FrontKeepsDistinct(recent, k, e.lastAccessMs);
      var front := Front(recent, k, e.lastAccessMs);
      assert front[..|front|] == front;
    }
  }

  /** An untied victim is the last of the kept keys. */
  lemma UntiedVictimIsLast<T>(m: CacheMap<T>, head: seq<Entry<string, int>>)
    requires Agrees(m, head) && Descending(head) && m != [] && OneOldest(m)
    ensures m[LeastUsed(m, |m|)].key == head[|head| - 1].key
  {
    var victim, last := m[LeastUsed(m, |m|)].key, head[|head| - 1];
    UntiedVictimIsStrictlyOldest(m, last.key);
    GetIsTheEntry(m, LeastUsed(m, |m|));
    hide LeastUsed, OneOldest;
    GetIsTheEntry(head, |head| - 1);
    assert TimeOf(m, last.key) == Get(head, last.key) && TimeOf(m, victim) == Get(head, victim);
    var p :| 0 <= p < |head| && head[p] == Entry(victim, Get(head, victim).value);
    hide Get;
  }

  lemma UntiedVictimIsStrictlyOldest<T>(m: CacheMap<T>, q: string)
    requires m != [] && OneOldest(m) && Distinct(m)
    ensures var victim := m[LeastUsed(m, |m|)].key;
      TimeOf(m, q).Some? && q != victim ==>
        TimeOf(m, victim).Some? && TimeOf(m, victim).value < TimeOf(m, q).value
  {
    var v := LeastUsed(m, |m|);
    var only :| 0 <= only < |m| && IsAloneOldest(m, only);
    assert !UsedBefore(m[only].value, m[v].value);
    assert only == v;
    GetIsTheEntry(m, v);
    hide LeastUsed;
    if TimeOf(m, q).Some? {
      var i :| 0 <= i < |m| && m[i] == Entry(q, Get(m, q).value);
    }
  }

  lemma DropLastAgrees<T>(m: CacheMap<T>, head: seq<Entry<string, int>>)
    requires Agrees(m, head) && Distinct(head) && head != []
    ensures Agrees(Delete(m, head[|head| - 1].key), head[..|head| - 1])
  {
    var init, last := head[..|head| - 1], head[|head| - 1];
    assert head == init + [last];
    DeleteInTail(init, [last], last.key);
    assert Delete([last], last.key) == [] && init + [] == init;
    hide Delete;
    DeleteKeepsDistinct(m, last.key);
    GetIsTheEntry(head, |head| - 1);
    assert TimeOf(m, last.key) == Get(head, last.key);
    forall q ensures TimeOf(Delete(m, last.key), q) == Get(init, q) {
      GetAfterDelete(m, last.key, q);
      GetAfterDelete(head, last.key, q);
      assert TimeOf(m, q) == Get(head, q);
    }
  }

  lemma EvictAgrees<T>(m: CacheMap<T>, head: seq<Entry<string, int>>, k: string, e: CacheEntry<T>)
    requires Agrees(m, head) && Descending(head) && head != [] && OneOldest(m)
    ensures Agrees(Set(Delete(m, m[LeastUsed(m, |m|)].key), k, e), Front(head[..|head| - 1], k, e.lastAccessMs))
  {
    UntiedVictimIsLast(m, head);
    hide Set, Front, Delete, LeastUsed, OneOldest;
    DropLastAgrees(m, head);
    HeadIsDistinct(head, |head| - 1);
    SetAgrees(Delete(m, head[|head| - 1].key), head[..|head| - 1], k, e);
  }

  lemma EvictRefines<T>(m: CacheMap<T>, capacity: nat, recent: seq<Entry<string, int>>, k: string, e: CacheEntry<T>)
    requires Refines(m, capacity, recent) && !Has(m, k) && |m| == capacity >= 1 && OneOldest(m)
    requires forall x :: x in recent ==> x.value <= e.lastAccessMs
    ensures Refines(Set(Delete(m, m[LeastUsed(m, |m|)].key), k, e), capacity, Front(recent, k, e.lastAccessMs))
  {
    hide Front, Set, Delete, LeastUsed, OneOldest;
    var head := recent[..capacity];
    assert TimeOf(m, k) == Get(head, k);
    FrontIsDescending(recent, k, e.lastAccessMs);
    FrontAfterEviction(recent, k, e.lastAccessMs, capacity);
    EvictAgrees(m, head, k, e);
    hide Agrees, Descending, Get, TimeOf;
    assert Min(capacity, |Front(recent, k, e.lastAccessMs)|) == capacity;
  }

  lemma FrontAfterEviction(recent: seq<Entry<string, int>>, k: string, nowMs: int, capacity: nat)
    requires 1 <= capacity <= |recent| && !Has(recent[..capacity], k)
    ensures |Front(recent, k, nowMs)| >= capacity
    ensures Front(recent, k, nowMs)[..capacity] == Front(recent[..capacity][..capacity - 1], k, nowMs)
  {
    var init := recent[..capacity - 1];
    assert recent == recent[..capacity] + recent[capacity..];
    assert recent[..capacity][..capacity - 1] == init;
    DeleteInTail(recent[..capacity], recent[capacity..], k);
    assert recent[..capacity] == init + recent[capacity - 1..capacity];
    HasConcat(init, recent[capacity - 1..capacity], k);
    DeleteOfAbsentKey(init, k);
  }

  lemma AnswerRefines<T>(m: CacheMap<T>, capacity: nat, recent: seq<Entry<string, int>>, r: Request<T>)
    requires capacity >= 1 && Refines(m, capacity, recent) && |m| <= capacity
    requires forall x :: x in recent ==> x.value <= r.nowMs
    requires Evicts(m, capacity, r) ==> OneOldest(m)
    ensures Refines(Answer(m, capacity, r).0, capacity, Front(recent, r.key, r.nowMs))
  {
    hide Refines, Front, Set, Delete, LeastUsed, OneOldest;
    var read := CacheEntry(r.direct, r.nowMs, r.nowMs);
    if DecideCache(r.key, m, r.nowMs, SESSION_CACHE_TTL_MS).Hit? {
      var hit: CacheEntry<T> := Get(m, r.key).value;
      SetRefines(m, capacity, recent, r.key, hit.(lastAccessMs := r.nowMs));
    } else if Has(m, r.key) || |m| < capacity {
      SetRefines(m, capacity, recent, r.key, read);
    } else {
      EvictRefines(m, capacity, recent, r.key, read);
    }
  }

  /** This request gives an entry up. */
  predicate Evicts<T>(m: CacheMap<T>, capacity: nat, r: Request<T>) {
    !Has(m, r.key) && |m| >= capacity
  }

  /** No eviction of the run had to choose between equally old entries. */
  ghost predicate UntiedEvictions<T>(capacity: nat, trace: seq<Request<T>>) {
    forall n :: 0 <= n < |trace| ==> EvictsUntied(capacity, trace, n)
  }

  ghost predicate EvictsUntied<T>(capacity: nat, trace: seq<Request<T>>, n: nat)
    requires n < |trace|
  {
    Evicts(Serve(capacity, trace[..n]).0, capacity, trace[n]) ==> OneOldest(Serve(capacity, trace[..n]).0)
  }

  lemma UntiedPrefix<T>(capacity: nat, trace: seq<Request<T>>)
    requires trace != [] && UntiedEvictions(capacity, trace)
    ensures UntiedEvictions(capacity, trace[..|trace| - 1])
    ensures EvictsUntied(capacity, trace, |trace| - 1)
  {
    hide EvictsUntied;
    var init := trace[..|trace| - 1];
    forall n | 0 <= n < |init| ensures EvictsUntied(capacity, init, n) {
      assert EvictsUntied(capacity, trace, n);
      assert init[..n] == trace[..n] && init[n] == trace[n];
      SameEviction(capacity, trace, init, n);
    }
  }

  lemma SameEviction<T>(capacity: nat, trace: seq<Request<T>>, init: seq<Request<T>>, n: nat)
    requires n < |init| && n < |trace| && init[..n] == trace[..n] && init[n] == trace[n]
    ensures EvictsUntied(capacity, init, n) <==> EvictsUntied(capacity, trace, n)
  {
  }

  /** While no eviction is tied, the cache holds, after any requests, exactly the `capacity` most recently requested
      distinct keys, in the order of the requests. */
  lemma {:induction false} CacheIsLru<T>(capacity: nat, trace: seq<Request<T>>)
    requires capacity >= 1 && ClockMonotone(trace) && UntiedEvictions(capacity, trace)
    ensures Refines(Serve(capacity, trace).0, capacity, Recency(trace))
    decreases |trace|
  {
    if trace != [] {
      UntiedPrefix(capacity, trace);
      hide Refines, Front, Answer, UntiedEvictions, OneOldest, KeepsTheLatest, Descending;
      var n := |trace| - 1;
      CacheIsLru(capacity, trace[..n]);
      RecencyIsDescending(trace[..n], trace[n].nowMs);
      CacheKeepsTheLatest(capacity, trace[..n]);
      SizeIsWithinCapacity(Serve(capacity, trace[..n]).0, capacity, Recency(trace[..n]));
      AnswerRefines(Serve(capacity, trace[..n]).0, capacity, Recency(trace[..n]), trace[n]);
    }
  }

  /** A strictly increasing clock ties nothing. */
  lemma StrictClockTiesNothing<T>(capacity: nat, trace: seq<Request<T>>)
    requires capacity >= 1 && ClockStrict(trace)
    ensures ClockMonotone(trace) && UntiedEvictions(capacity, trace)
  {
    assert ClockMonotone(trace);
    forall n | 0 <= n < |trace| ensures EvictsUntied(capacity, trace, n) {
      var m := Serve(capacity, trace[..n]).0;
      assert ClockStrict(trace[..n]) && ClockMonotone(trace[..n]);
      if |m| >= capacity {
        DistinctTimesHaveOneOldest(capacity, trace[..n]);
      }
    }
  }

  lemma DistinctTimesHaveOneOldest<T>(capacity: nat, trace: seq<Request<T>>)
    requires capacity >= 1 && ClockStrict(trace) && ClockMonotone(trace) && Serve(capacity, trace).0 != []
    ensures OneOldest(Serve(capacity, trace).0)
  {
    var m := Serve(capacity, trace).0;
    CacheKeepsTheLatest(capacity, trace);
    var v := LeastUsed(m, |m|);
    hide Serve, Recency, LastRequest, LeastUsed, Get, TimeOf;
    forall k | 0 <= k < |m|
      ensures LastRequest(trace, m[k].key).Some?
              && trace[LastRequest(trace, m[k].key).value].nowMs == m[k].value.lastAccessMs
    {
      EntryTime(capacity, trace, k);
    }
    forall j | 0 <= j < |m| && j != v ensures m[v].value.lastAccessMs < m[j].value.lastAccessMs {
      assert !UsedBefore(m[j].value, m[v].value);
      assert m[j].key != m[v].key;
    }
    assert IsAloneOldest(m, v);
  }

  /** The session cache itself: while no eviction is tied its keys are the 500 most recent ones. */
  lemma SessionCacheHoldsTheMostRecent<T>(trace: seq<Request<T>>, key: string)
    requires ClockMonotone(trace) && UntiedEvictions(CACHE_CAPACITY, trace)
    ensures Has(Serve(CACHE_CAPACITY, trace).0, key) <==>
            Has(Recency(trace)[..Min(CACHE_CAPACITY, |Recency(trace)|)], key)
  {
    CacheIsLru(CACHE_CAPACITY, trace);
    assert TimeOf(Serve(CACHE_CAPACITY, trace).0, key) == Get(Recency(trace)[..Min(CACHE_CAPACITY, |Recency(trace)|)], key);
  }

  // ----- a tied eviction at any capacity

  function Name(i: nat): string {
    seq(i, _ => 'a')
  }

  /** The first `n` of the scanned keys as they are kept: the first was written a moment earlier than the rest. */
  function Scanned(n: nat, firstUsedMs: int): CacheMap<int> {
    seq(n, i requires 0 <= i < n => Entry(Name(i), if i == 0 then CacheEntry(0, 1, firstUsedMs) else CacheEntry(0, 2, 2)))
  }

  /** One read of the first key, then a scan of all the others under one reading. */
  function ScanOf(n: nat): seq<Request<int>> {
    seq(n, i requires 0 <= i < n => Request(Name(i), if i == 0 then 1 else 2, 0))
  }

  lemma NamesDiffer(n: nat, firstUsedMs: int)
    ensures Distinct(Scanned(n, firstUsedMs))
    ensures !Has(Scanned(n, firstUsedMs), Name(n))
  {
    var m := Scanned(n, firstUsedMs);
    forall i | 0 <= i < n ensures |m[i].key| == i {
    }
  }

  lemma {:induction false} ScanFillsTheCache(capacity: nat, n: nat)
    requires n <= capacity
    ensures Serve(capacity, ScanOf(n)).0 == Scanned(n, 1)
  {
    if n > 0 {
      ScanFillsTheCache(capacity, n - 1);
      assert ScanOf(n)[..n - 1] == ScanOf(n - 1);
      var m, last := Scanned(n - 1, 1), ScanOf(n)[n - 1];
      NamesDiffer(n - 1, 1);
      SetOfAbsentKeyAppends(m, last.key, CacheEntry(0, last.nowMs, last.nowMs));
      assert Get(m, last.key).None?;
      hide Set, Get;
      assert Scanned(n, 1) == m + [Entry(last.key, CacheEntry(0, last.nowMs, last.nowMs))];
    } else {
      assert ScanOf(0) == [] && Scanned(0, 1) == [];
    }
  }

  /** The scan followed by one more use of the first key, still under the same reading. */
  function TiedScan(n: nat): seq<Request<int>> {
    ScanOf(n) + [Request(Name(0), 2, 0)]
  }

  lemma {:induction false} FirstIsLeastUsed(n: nat, k: nat)
    requires 0 < k <= n
    ensures LeastUsed(Scanned(n, 2), k) == 0
  {
    if k > 1 {
      FirstIsLeastUsed(n, k - 1);
    }
  }

  /** The clock must move between evictions: at every capacity of two or more, the session cache's included, a run
      whose requests share one reading gives up the very key that was used last. */
  lemma EqualReadingsCanEvictTheLastUsed(capacity: nat)
    requires capacity >= 2
    ensures var before := Serve(capacity, TiedScan(capacity)).0;
      && ClockMonotone(TiedScan(capacity) + [Request(Name(capacity), 2, 0)])
      && LastRequest(TiedScan(capacity), Name(0)) == Some(|TiedScan(capacity)| - 1)
      && before == Scanned(capacity, 2) && !OneOldest(before)
      && Answer(before, capacity, Request(Name(capacity), 2, 0)).0
         == before[1..] + [Entry(Name(capacity), CacheEntry(0, 2, 2))]
  {
    hide Serve, Answer, LastRequest, OneOldest, Scanned, ScanOf;
    TiedScanIsMonotone(capacity);
    TouchingTheFirst(capacity);
    TiedScanState(capacity);
    FullScanIsTied(capacity);
    TiedEviction(capacity);
  }

  lemma TiedScanIsMonotone(n: nat)
    requires n >= 1
    ensures ClockMonotone(TiedScan(n) + [Request(Name(n), 2, 0)])
    ensures LastRequest(TiedScan(n), Name(0)) == Some(|TiedScan(n)| - 1)
  {
    hide Name;
  }

  /** Using the first key again moves only its reading. */
  lemma TouchingTheFirst(n: nat)
    requires n >= 1
    ensures Answer(Scanned(n, 1), n, Request(Name(0), 2, 0)).0 == Scanned(n, 2)
  {
    var first, touched := Scanned(n, 1), CacheEntry(0, 1, 2);
    NamesDiffer(n, 1);
    assert first[0] == Entry(Name(0), CacheEntry(0, 1, 1));
    GetIsTheEntry(first, 0);
    assert Set(first, Name(0), touched) == [Entry(Name(0), touched)] + first[1..];
    hide Set, Get, Name;
    assert Scanned(n, 2) == [Entry(Name(0), touched)] + first[1..];
  }

  lemma TiedScanState(n: nat)
    requires n >= 1 && Answer(Scanned(n, 1), n, Request(Name(0), 2, 0)).0 == Scanned(n, 2)
    ensures Serve(n, TiedScan(n)).0 == Scanned(n, 2)
  {
    ScanFillsTheCache(n, n);
    hide Scanned, ScanOf, Answer;
    assert TiedScan(n)[..|TiedScan(n)| - 1] == ScanOf(n);
  }

  lemma FullScanIsTied(n: nat)
    requires n >= 2
    ensures !OneOldest(Scanned(n, 2))
  {
    var full := Scanned(n, 2);
    forall i | 0 <= i < n ensures !IsAloneOldest(full, i) {
      var other := if i == 0 then 1 else 0;
      assert full[i].value.lastAccessMs == 2 && full[other].value.lastAccessMs == 2;
    }
  }

  lemma TiedEviction(n: nat)
    requires n >= 2
    ensures Answer(Scanned(n, 2), n, Request(Name(n), 2, 0)).0
            == Scanned(n, 2)[1..] + [Entry(Name(n), CacheEntry(0, 2, 2))]
  {
    var full := Scanned(n, 2);
    NamesDiffer(n, 2);
    FirstIsLeastUsed(n, n);
    var rest := full[1..];
    assert Delete(full, full[0].key) == rest;
    AbsentInTail(full, Name(n));
    SetOfAbsentKeyAppends(rest, Name(n), CacheEntry(0, 2, 2));
    assert Get(full, Name(n)).None?;
    hide Set, Delete, Get, LeastUsed, Name, Scanned;
  }

  lemma AbsentInTail(m: CacheMap<int>, k: string)
    requires m != [] && !Has(m, k)
    ensures !Has(m[1..], k)
  {
    HasTail(m, k);
  }
}
