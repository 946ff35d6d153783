/** A JavaScript `Map`: its entries in insertion order. Setting a key that is already present
    replaces the value and keeps the position; a new key goes last. */
module JsMap {
  import opened Collections

  datatype Entry<+K, +V> = Entry(key: K, value: V)

  function Keys<K, V>(m: seq<Entry<K, V>>): (ks: seq<K>)
    ensures |ks| == |m|
    ensures forall i :: 0 <= i < |m| ==> ks[i] == m[i].key
  {
    seq(|m|, i requires 0 <= i < |m| => m[i].key)
  }

  predicate Has<K(==), V>(m: seq<Entry<K, V>>, k: K) {
    exists i :: 0 <= i < |m| && m[i].key == k
  }

  predicate Distinct<K(==), V>(m: seq<Entry<K, V>>) {
    forall i, j :: 0 <= i < j < |m| ==> m[i].key != m[j].key
  }

  function Get<K(==), V>(m: seq<Entry<K, V>>, k: K): (v: Option<V>)
    ensures v.Some? <==> Has(m, k)
    ensures v.Some? ==> exists i :: 0 <= i < |m| && m[i] == Entry(k, v.value)
  {
    if m == [] then None
    else if m[0].key == k then
      assert m[0] == Entry(k, m[0].value);
      Some(m[0].value)
    else
      var r := Get(m[1..], k);
      assert forall i :: 0 <= i < |m[1..]| ==> m[1..][i] == m[i + 1];
      assert Has(m, k) ==> Has(m[1..], k) by {
        if Has(m, k) {
          var i :| 0 <= i < |m| && m[i].key == k;
          assert m[1..][i - 1].key == k;
        }
      }
      r
  }

  function Set<K(==), V>(m: seq<Entry<K, V>>, k: K, v: V): (r: seq<Entry<K, V>>) {
    if m == [] then [Entry(k, v)]
    else if m[0].key == k then [Entry(k, v)] + m[1..]
    else [m[0]] + Set(m[1..], k, v)
  }

  function Delete<K(==), V>(m: seq<Entry<K, V>>, k: K): (r: seq<Entry<K, V>>) {
    if m == [] then []
    else if m[0].key == k then m[1..]
    else [m[0]] + Delete(m[1..], k)
  }

  // ----- what the operations do to keys and values

  lemma {:induction false} SetOfAbsentKeyAppends<K, V>(m: seq<Entry<K, V>>, k: K, v: V)
    requires !Has(m, k)
    ensures Set(m, k, v) == m + [Entry(k, v)]
  {
    if m != [] {
      HasTail(m, k);
      SetOfAbsentKeyAppends(m[1..], k, v);
      AppendIsAssociative([m[0]], m[1..], [Entry(k, v)]);
    }
  }

  lemma {:induction false} SetOfPresentKeyReplaces<K, V>(m: seq<Entry<K, V>>, k: K, v: V) returns (i: nat)
    requires Has(m, k)
    ensures i < |m| && m[i].key == k
    ensures Set(m, k, v) == m[i := Entry(k, v)]
  {
    if m[0].key == k {
      i := 0;
    } else {
      HasTail(m, k);
      var j := SetOfPresentKeyReplaces(m[1..], k, v);
      i := j + 1;
    }
  }

  lemma {:induction false} DeleteRemovesOne<K, V>(m: seq<Entry<K, V>>, k: K) returns (i: nat)
    requires Has(m, k)
    ensures i < |m| && m[i].key == k
    ensures Delete(m, k) == m[..i] + m[i + 1..]
  {
    if m[0].key == k {
      i := 0;
    } else {
      HasTail(m, k);
      var j := DeleteRemovesOne(m[1..], k);
      i := j + 1;
    }
  }

  lemma HasTail<K, V>(m: seq<Entry<K, V>>, k: K)
    requires m != []
    ensures Has(m, k) <==> m[0].key == k || Has(m[1..], k)
  {
    if Has(m, k) && m[0].key != k {
      var i :| 0 <= i < |m| && m[i].key == k;
      assert m[1..][i - 1].key == k;
    }
    if Has(m[1..], k) {
      var i :| 0 <= i < |m[1..]| && m[1..][i].key == k;
      assert m[i + 1].key == k;
    }
  }

  lemma HasConcat<K, V>(a: seq<Entry<K, V>>, b: seq<Entry<K, V>>, k: K)
    ensures Has(a + b, k) <==> Has(a, k) || Has(b, k)
  {
    if Has(a, k) {
      var i :| 0 <= i < |a| && a[i].key == k;
      assert (a + b)[i].key == k;
    }
    if Has(b, k) {
      var i :| 0 <= i < |b| && b[i].key == k;
      assert (a + b)[|a| + i].key == k;
    }
  }

  lemma SetKeepsDistinct<K, V>(m: seq<Entry<K, V>>, k: K, v: V)
    requires Distinct(m)
    ensures Distinct(Set(m, k, v))
    ensures |Set(m, k, v)| == if Has(m, k) then |m| else |m| + 1
    ensures forall q :: Has(Set(m, k, v), q) <==> q == k || Has(m, q)
  {
    if Has(m, k) {
      var i := SetOfPresentKeyReplaces(m, k, v);
      forall q ensures Has(Set(m, k, v), q) <==> q == k || Has(m, q) {
        if Has(m, q) {
          var j :| 0 <= j < |m| && m[j].key == q;
          assert Set(m, k, v)[j].key == q;
        }
        assert Set(m, k, v)[i].key == k;
      }
    } else {
      SetOfAbsentKeyAppends(m, k, v);
      forall q ensures Has(Set(m, k, v), q) <==> q == k || Has(m, q) {
        HasConcat(m, [Entry(k, v)], q);
        assert [Entry(k, v)][0].key == k;
      }
    }
  }

  lemma {:induction false} GetAfterSet<K, V>(m: seq<Entry<K, V>>, k: K, v: V, q: K)
    ensures Get(Set(m, k, v), q) == if q == k then Some(v) else Get(m, q)
  {
    if m != [] && m[0].key != k {
      GetAfterSet(m[1..], k, v, q);
      assert Set(m, k, v)[1..] == Set(m[1..], k, v);
    }
  }

  lemma DeleteKeepsDistinct<K, V>(m: seq<Entry<K, V>>, k: K)
    requires Distinct(m)
    ensures Distinct(Delete(m, k))
    ensures |Delete(m, k)| == if Has(m, k) then |m| - 1 else |m|
    ensures forall q :: Has(Delete(m, k), q) <==> q != k && Has(m, q)
  {
    if Has(m, k) {
      var i := DeleteRemovesOne(m, k);
      var d := Delete(m, k);
      hide Delete;
      assert forall j :: 0 <= j < |d| ==> d[j] == if j < i then m[j] else m[j + 1];
      forall q ensures Has(d, q) <==> q != k && Has(m, q) {
        if q != k && Has(m, q) {
          var j :| 0 <= j < |m| && m[j].key == q;
          if j < i {
            assert d[j].key == q;
          } else {
            assert d[j - 1].key == q;
          }
        }
      }
    } else {
      DeleteOfAbsentKey(m, k);
    }
  }

  lemma {:induction false} DeleteOfAbsentKey<K, V>(m: seq<Entry<K, V>>, k: K)
    requires !Has(m, k)
    ensures Delete(m, k) == m
  {
    if m != [] {
      HasTail(m, k);
      DeleteOfAbsentKey(m[1..], k);
    }
  }

  lemma {:induction false} GetAfterDelete<K, V>(m: seq<Entry<K, V>>, k: K, q: K)
    requires Distinct(m)
    ensures Get(Delete(m, k), q) == if q == k then None else Get(m, q)
  {
    if m != [] {
      assert Distinct(m[1..]);
      if m[0].key == k {
        HasTail(m, k);
        assert !Has(m[1..], k);
      } else {
        GetAfterDelete(m[1..], k, q);
        assert Delete(m, k)[1..] == Delete(m[1..], k);
      }
    }
  }

  lemma {:induction false} GetIsTheEntry<K, V>(m: seq<Entry<K, V>>, i: nat)
    requires Distinct(m) && i < |m|
    ensures Get(m, m[i].key) == Some(m[i].value)
  {
    if i > 0 {
      assert Distinct(m[1..]);
      GetIsTheEntry(m[1..], i - 1);
    }
  }

  // ----- the operations on a concatenation: what a part that does not hold the key sees

  lemma {:induction false} SetInTail<K, V>(a: seq<Entry<K, V>>, b: seq<Entry<K, V>>, k: K, v: V)
    requires !Has(a, k)
    ensures Set(a + b, k, v) == a + Set(b, k, v)
  {
    if a == [] {
      assert a + b == b;
    } else {
      HasTail(a, k);
      SetInTail(a[1..], b, k, v);
      assert (a + b)[1..] == a[1..] + b;
    }
  }

  lemma {:induction false} SetInHead<K, V>(a: seq<Entry<K, V>>, b: seq<Entry<K, V>>, k: K, v: V)
    requires Has(a, k)
    ensures Set(a + b, k, v) == Set(a, k, v) + b
  {
    assert (a + b)[1..] == a[1..] + b;
    if a[0].key != k {
      HasTail(a, k);
      SetInHead(a[1..], b, k, v);
    }
  }

  lemma {:induction false} DeleteInTail<K, V>(a: seq<Entry<K, V>>, b: seq<Entry<K, V>>, k: K)
    requires !Has(a, k)
    ensures Delete(a + b, k) == a + Delete(b, k)
  {
    if a == [] {
      assert a + b == b;
    } else {
      HasTail(a, k);
      DeleteInTail(a[1..], b, k);
      assert (a + b)[1..] == a[1..] + b;
    }
  }

  lemma {:induction false} DeleteInHead<K, V>(a: seq<Entry<K, V>>, b: seq<Entry<K, V>>, k: K)
    requires Has(a, k)
    ensures Delete(a + b, k) == Delete(a, k) + b
  {
    assert (a + b)[1..] == a[1..] + b;
    if a[0].key != k {
      HasTail(a, k);
      DeleteInHead(a[1..], b, k);
    }
  }

  lemma {:induction false} GetInConcat<K, V>(a: seq<Entry<K, V>>, b: seq<Entry<K, V>>, k: K)
    ensures Get(a + b, k) == if Has(a, k) then Get(a, k) else Get(b, k)
  {
    if a == [] {
      assert a + b == b;
    } else {
      HasTail(a, k);
      GetInConcat(a[1..], b, k);
      assert (a + b)[1..] == a[1..] + b;
    }
  }

  lemma SetIsOneEntry<K, V>(m: seq<Entry<K, V>>, id: K, v: V)
    requires Distinct(m)
    ensures Distinct(Set(m, id, v))
    ensures forall k, e :: Entry(k, e) in Set(m, id, v) <==> if k == id then e == v else Entry(k, e) in m
  {
    SetKeepsDistinct(m, id, v);
    if Has(m, id) {
      var i := SetOfPresentKeyReplaces(m, id, v);
      hide Set;
      var r := m[i := Entry(id, v)];
      forall k, e ensures Entry(k, e) in r <==> if k == id then e == v else Entry(k, e) in m {
        if k != id && Entry(k, e) in m {
          var j :| 0 <= j < |m| && m[j] == Entry(k, e);
          assert r[j] == m[j];
        }
        assert r[i] == Entry(id, v);
      }
    } else {
      SetOfAbsentKeyAppends(m, id, v);
    }
  }
}
