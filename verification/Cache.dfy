/** The bounded, expiring session cache (viewer/core/cache.ts, viewer/serve.ts). */
module Cache {
  import opened Collections
  import opened JsMap

  const CACHE_CAPACITY: nat := 500
  const SESSION_CACHE_TTL_MS: int := 60000

  datatype CacheEntry<+T> = CacheEntry(value: T, insertedAtMs: int, lastAccessMs: int)
  type CacheMap<T> = seq<Entry<string, CacheEntry<T>>>

  datatype Decision<+T> = Hit(value: T) | Stale | Miss

  function DecideCache<T>(key: string, existing: CacheMap<T>, nowMs: int, ttlMs: int): Decision<T> {
    var entry := Get(existing, key);
    if entry.None? then Miss
    else if nowMs - entry.value.insertedAtMs >= ttlMs then Stale
    else Hit(entry.value.value)
  }

  /** The order in which entries are given up: by last use, then by write. */
  predicate UsedBefore<T>(a: CacheEntry<T>, b: CacheEntry<T>) {
    a.lastAccessMs < b.lastAccessMs || (a.lastAccessMs == b.lastAccessMs && a.insertedAtMs < b.insertedAtMs)
  }

  /** The first of the least entries among the first `n`. */
  function LeastUsed<T>(existing: CacheMap<T>, n: nat): (v: nat)
    requires 0 < n <= |existing|
    ensures v < n
    ensures forall i :: 0 <= i < n ==> !UsedBefore(existing[i].value, existing[v].value)
    ensures forall i :: 0 <= i < v ==> UsedBefore(existing[v].value, existing[i].value)
  {
    if n == 1 then 0
    else
      var v := LeastUsed(existing, n - 1);
      if UsedBefore(existing[n - 1].value, existing[v].value) then n - 1 else v
  }

  method EvictionVictim<T>(existing: CacheMap<T>, capacity: nat) returns (victim: Option<string>)
    ensures victim == if |existing| < capacity || |existing| == 0 then None
                      else Some(existing[LeastUsed(existing, |existing|)].key)
  {
    if |existing| < capacity {
      return None;
    }
    victim := None;
    var victimEntry: Option<CacheEntry<T>> := None;
    for i := 0 to |existing|
      invariant i == 0 ==> victim.None? && victimEntry.None?
      invariant i > 0 ==> victim == Some(existing[LeastUsed(existing, i)].key)
      invariant i > 0 ==> victimEntry == Some(existing[LeastUsed(existing, i)].value)
    {
      var entry := existing[i].value;
      if victimEntry.None? || UsedBefore(entry, victimEntry.value) {
        victim := Some(existing[i].key);
        victimEntry := Some(entry);
      }
    }
  }

  function Inserted<T>(m: CacheMap<T>, capacity: nat, key: string, value: T, nowMs: int): CacheMap<T> {
    var room := if Has(m, key) || |m| < capacity || |m| == 0 then m
                else Delete(m, m[LeastUsed(m, |m|)].key);
    Set(room, key, CacheEntry(value, nowMs, nowMs))
  }

  /** One request: its key, the clock, and what reading the file right now would return. */
  datatype Request<+T> = Request(key: string, nowMs: int, direct: T)

  function Answer<T>(m: CacheMap<T>, capacity: nat, r: Request<T>): (CacheMap<T>, T) {
    var decision := DecideCache(r.key, m, r.nowMs, SESSION_CACHE_TTL_MS);
    if decision.Hit? then
      (Set(m, r.key, Get(m, r.key).value.(lastAccessMs := r.nowMs)), decision.value)
    else
      (Inserted(m, capacity, r.key, r.direct, r.nowMs), r.direct)
  }

  /** A request for a kept key, written at position `i`: while the entry is younger than a minute it answers, and only
      its last use moves; from then on the file is read again and the entry written anew, in its place. */
  lemma KeptKeyIsAnswered<T>(m: CacheMap<T>, capacity: nat, r: Request<T>, i: nat)
    requires Distinct(m) && i < |m| && m[i].key == r.key
    ensures var e := m[i].value;
      Answer(m, capacity, r) ==
        if r.nowMs - e.insertedAtMs < 60000 then (m[i := Entry(r.key, CacheEntry(e.value, e.insertedAtMs, r.nowMs))], e.value)
        else (m[i := Entry(r.key, CacheEntry(r.direct, r.nowMs, r.nowMs))], r.direct)
  {
    GetIsTheEntry(m, i);
    hide Get, Set;
    assert Has(m, r.key);
    var e := m[i].value;
    var j := SetOfPresentKeyReplaces(m, r.key, CacheEntry(e.value, e.insertedAtMs, r.nowMs));
    var k := SetOfPresentKeyReplaces(m, r.key, CacheEntry(r.direct, r.nowMs, r.nowMs));
  }

  /** The entry at `v` is given up before all others: none was used, or at the same time written, earlier, and none so
      early stands before it. */
  predicate GoesFirst<T>(m: CacheMap<T>, v: nat)
    requires v < |m|
  {
    && (forall i :: 0 <= i < |m| ==>
          || m[v].value.lastAccessMs < m[i].value.lastAccessMs
          || (m[v].value.lastAccessMs == m[i].value.lastAccessMs && m[v].value.insertedAtMs <= m[i].value.insertedAtMs))
    && forall i :: 0 <= i < v ==>
         m[i].value.lastAccessMs != m[v].value.lastAccessMs || m[i].value.insertedAtMs != m[v].value.insertedAtMs
  }

  /** A request for a new key reads the file and goes last; at capacity the one entry that goes first makes room. */
  lemma NewKeyIsRead<T>(m: CacheMap<T>, capacity: nat, r: Request<T>) returns (v: nat)
    requires Distinct(m) && !Has(m, r.key)
    ensures var written := Entry(r.key, CacheEntry(r.direct, r.nowMs, r.nowMs));
      Answer(m, capacity, r).1 == r.direct
      && if |m| < capacity || m == [] then Answer(m, capacity, r).0 == m + [written]
         else v < |m| && GoesFirst(m, v) && Answer(m, capacity, r).0 == m[..v] + m[v + 1..] + [written]
  {
    hide Get, Set, Delete, LeastUsed;
    var e := CacheEntry(r.direct, r.nowMs, r.nowMs);
    v := 0;
    if |m| < capacity || m == [] {
      SetOfAbsentKeyAppends(m, r.key, e);
    } else {
      v := LeastUsed(m, |m|);
      VictimStandsAt(m, v);
      DeleteKeepsDistinct(m, m[v].key);
      SetOfAbsentKeyAppends(Delete(m, m[v].key), r.key, e);
    }
  }

  lemma VictimStandsAt<T>(m: CacheMap<T>, v: nat)
    requires Distinct(m) && v < |m|
    ensures Delete(m, m[v].key) == m[..v] + m[v + 1..]
  {
    hide Delete;
    assert Has(m, m[v].key);
    var i := DeleteRemovesOne(m, m[v].key);
  }

  class SessionReadCache<T> {
    var entries: CacheMap<T>

    constructor ()
      ensures entries == []
    {
      entries := [];
    }

    method BoundedInsert(key: string, value: T, nowMs: int)
      modifies this
      ensures entries == Inserted(old(entries), CACHE_CAPACITY, key, value, nowMs)
    {
      if Get(entries, key).None? {
        var victim := EvictionVictim(entries, CACHE_CAPACITY);
        if victim.Some? {
          entries := Delete(entries, victim.value);
        }
      }
      entries := Set(entries, key, CacheEntry(value, nowMs, nowMs));
    }

    method ReadSessionWindows(r: Request<T>) returns (windows: T)
      modifies this
      ensures (entries, windows) == Answer(old(entries), CACHE_CAPACITY, r)
    {
      var decision := DecideCache(r.key, entries, r.nowMs, SESSION_CACHE_TTL_MS);
      if decision.Hit? {
        var existing := Get(entries, r.key);
        if existing.Some? {
          entries := Set(entries, r.key, existing.value.(lastAccessMs := r.nowMs));
        }
        return decision.value;
      }
      BoundedInsert(r.key, r.direct, r.nowMs);
      return r.direct;
    }
  }
}

/** What the cache promises over whole request traces. */
module CacheTraces {
  import opened Collections
  import opened JsMap
  import opened Cache

  function Serve<T>(capacity: nat, trace: seq<Request<T>>): (r: (CacheMap<T>, seq<T>))
    ensures |r.1| == |trace|
  {
    if trace == [] then ([], [])
    else
      var (before, results) := Serve(capacity, trace[..|trace| - 1]);
      var (after, last) := Answer(before, capacity, trace[|trace| - 1]);
      (after, results + [last])
  }

  predicate ClockMonotone<T>(trace: seq<Request<T>>) {
    forall i, j :: 0 <= i < j < |trace| ==> trace[i].nowMs <= trace[j].nowMs
  }

  predicate ClockStrict<T>(trace: seq<Request<T>>) {
    forall i, j :: 0 <= i < j < |trace| ==> trace[i].nowMs < trace[j].nowMs
  }

  // ----- freshness

  /** Each entry holds what a request of its key read when the entry was written. */
  ghost predicate Remembers<T>(trace: seq<Request<T>>, key: string, e: CacheEntry<T>) {
    exists i :: 0 <= i < |trace| && trace[i] == Request(key, e.insertedAtMs, e.value)
  }

  lemma RemembersLonger<T>(trace: seq<Request<T>>, more: Request<T>, key: string, e: CacheEntry<T>)
    requires Remembers(trace, key, e)
    ensures Remembers(trace + [more], key, e)
  {
    var i :| 0 <= i < |trace| && trace[i] == Request(key, e.insertedAtMs, e.value);
    assert (trace + [more])[i] == trace[i];
  }

  lemma {:induction false} EntriesAreReads<T>(capacity: nat, trace: seq<Request<T>>)
    ensures Distinct(Serve(capacity, trace).0)
    ensures forall e :: e in Serve(capacity, trace).0 ==> Remembers(trace, e.key, e.value)
    decreases |trace|
  {
    if trace != [] {
      var n := |trace| - 1;
      var r := trace[n];
      var before := Serve(capacity, trace[..n]).0;
      EntriesAreReads(capacity, trace[..n]);
      assert trace == trace[..n] + [r];
      forall e | e in before ensures Remembers(trace, e.key, e.value) {
        RemembersLonger(trace[..n], r, e.key, e.value);
      }
      AnswerKeepsReads(before, capacity, trace);
    }
  }

  lemma AnswerKeepsReads<T>(before: CacheMap<T>, capacity: nat, trace: seq<Request<T>>)
    requires trace != [] && Distinct(before)
    requires forall e :: e in before ==> Remembers(trace, e.key, e.value)
    ensures Distinct(Answer(before, capacity, trace[|trace| - 1]).0)
    ensures forall e :: e in Answer(before, capacity, trace[|trace| - 1]).0 ==> Remembers(trace, e.key, e.value)
  {
    hide Set, Delete, Get;
    var r := trace[|trace| - 1];
    LastRequestIsRemembered(trace);
    if DecideCache(r.key, before, r.nowMs, SESSION_CACHE_TTL_MS).Hit? {
      var kept := Get(before, r.key).value;
      var i :| 0 <= i < |before| && before[i] == Entry(r.key, kept);
      assert before[i] in before;
      TouchedIsRemembered(trace, r.key, kept, r.nowMs);
      SetKeeps(trace, before, r.key, kept.(lastAccessMs := r.nowMs));
    } else {
      hide Remembers;
      if !(Has(before, r.key) || |before| < capacity || |before| == 0) {
        var victim := before[LeastUsed(before, |before|)].key;
        DeleteKeepsDistinct(before, victim);
        var i := DeleteRemovesOne(before, victim);
        SetKeeps(trace, Delete(before, victim), r.key, CacheEntry(r.direct, r.nowMs, r.nowMs));
      } else {
        SetKeeps(trace, before, r.key, CacheEntry(r.direct, r.nowMs, r.nowMs));
      }
    }
  }

  lemma LastRequestIsRemembered<T>(trace: seq<Request<T>>)
    requires trace != []
    ensures var r := trace[|trace| - 1];
      Remembers(trace, r.key, CacheEntry(r.direct, r.nowMs, r.nowMs))
  {
    var r := trace[|trace| - 1];
    assert trace[|trace| - 1] == Request(r.key, r.nowMs, r.direct);
  }

  lemma TouchedIsRemembered<T>(trace: seq<Request<T>>, key: string, e: CacheEntry<T>, nowMs: int)
    requires Remembers(trace, key, e)
    ensures Remembers(trace, key, e.(lastAccessMs := nowMs))
  {
  }

  lemma SetKeeps<T>(trace: seq<Request<T>>, m: CacheMap<T>, key: string, e: CacheEntry<T>)
    requires Distinct(m) && Remembers(trace, key, e)
    requires forall x :: x in m ==> Remembers(trace, x.key, x.value)
    ensures Distinct(Set(m, key, e))
    ensures forall x :: x in Set(m, key, e) ==> Remembers(trace, x.key, x.value)
  {
    SetKeepsDistinct(m, key, e);
    if Has(m, key) {
      var i := SetOfPresentKeyReplaces(m, key, e);
    } else {
      SetOfAbsentKeyAppends(m, key, e);
    }
  }

  /** The request whose read an answer repeats. */
  lemma {:induction false} AnswerSource<T>(capacity: nat, trace: seq<Request<T>>, j: nat) returns (i: nat)
    requires j < |trace|
    ensures i <= j && trace[i].key == trace[j].key && trace[i].direct == Serve(capacity, trace).1[j]
    ensures i == j || trace[j].nowMs - trace[i].nowMs < SESSION_CACHE_TTL_MS
    decreases |trace|
  {
    hide Answer;
    var n := |trace| - 1;
    if j < n {
      i := AnswerSource(capacity, trace[..n], j);
      assert trace[i] == trace[..n][i] && trace[j] == trace[..n][j];
    } else {
      EntriesAreReads(capacity, trace[..n]);
      var before := Serve(capacity, trace[..n]).0;
      hide Serve;
      i := LastAnswerSource(capacity, before, trace);
    }
  }

  lemma LastAnswerSource<T>(capacity: nat, before: CacheMap<T>, trace: seq<Request<T>>) returns (i: nat)
    requires trace != [] && forall e :: e in before ==> Remembers(trace[..|trace| - 1], e.key, e.value)
    ensures var n := |trace| - 1;
      && i <= n && trace[i].key == trace[n].key && trace[i].direct == Answer(before, capacity, trace[n]).1
      && (i == n || trace[n].nowMs - trace[i].nowMs < SESSION_CACHE_TTL_MS)
  {
    hide Inserted, Set;
    var n := |trace| - 1;
    var r := trace[n];
    i := n;
    if DecideCache(r.key, before, r.nowMs, SESSION_CACHE_TTL_MS).Hit? {
      var entry := Get(before, r.key).value;
      var k :| 0 <= k < |before| && before[k] == Entry(r.key, entry);
      assert before[k] in before;
      i :| 0 <= i < n && trace[..n][i] == Request(r.key, entry.insertedAtMs, entry.value);
      assert trace[i] == trace[..n][i];
    }
  }

  /** Every answer is what a direct read of the same key returned less than the expiry window ago; so
      when the key determines the content, it is the direct read. */
  lemma AnswersAreRecentReads<T>(capacity: nat, trace: seq<Request<T>>, j: nat)
    requires j < |trace|
    ensures exists i :: 0 <= i <= j && trace[i].key == trace[j].key && trace[i].direct == Serve(capacity, trace).1[j]
                        && trace[j].nowMs - trace[i].nowMs < SESSION_CACHE_TTL_MS
    ensures (forall i :: 0 <= i < |trace| && trace[i].key == trace[j].key ==> trace[i].direct == trace[j].direct) ==>
              Serve(capacity, trace).1[j] == trace[j].direct
  {
    var i := AnswerSource(capacity, trace, j);
  }
}
