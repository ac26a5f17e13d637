/**
  Qt's QMap: an association list kept in strictly increasing key order.
  Iteration over a QMap (foreach, constBegin..constEnd, keys()) visits the
  entries in this order, which the toggle engine relies on.
 */
module OrdMap {

  datatype Option<T> = None | Some(value: T)

  type Entries<V> = seq<(nat, V)>

  predicate Sorted<V>(m: Entries<V>) {
    forall i, j :: 0 <= i < j < |m| ==> m[i].0 < m[j].0
  }

  function Keys<V>(m: Entries<V>): (ks: seq<nat>)
    ensures |ks| == |m|
    ensures forall i :: 0 <= i < |m| ==> ks[i] == m[i].0
  {
    if |m| == 0 then [] else [m[0].0] + Keys(m[1..])
  }

  predicate Contains<V>(m: Entries<V>, k: nat) {
    k in Keys(m)
  }

  /** QMap::value(k): the value stored under `k`, or None. */
  function Get<V>(m: Entries<V>, k: nat): (r: Option<V>)
    ensures r.Some? <==> Contains(m, k)
    ensures r.Some? ==> (k, r.value) in m
  {
    if |m| == 0 then None
    else if m[0].0 == k then Some(m[0].1)
    else Get(m[1..], k)
  }

  /** In a sorted map the value under a key is the one stored at its position. */
  lemma {:induction false} GetAt<V>(m: Entries<V>, i: nat)
    requires Sorted(m) && i < |m|
    ensures Get(m, m[i].0) == Some(m[i].1)
  {
    if i > 0 {
      GetAt(m[1..], i - 1);
    }
  }

  /** The position a present key is stored at. */
  lemma KeyPosition<V>(m: Entries<V>, k: nat) returns (j: nat)
    requires Contains(m, k)
    ensures j < |m| && m[j].0 == k
  {
    j :| 0 <= j < |m| && Keys(m)[j] == k;
  }

  /** QMap::insert(k, v): replaces the value under `k`, or adds the entry in key order. */
  function Put<V>(m: Entries<V>, k: nat, v: V): (r: Entries<V>)
    requires Sorted(m)
    ensures Sorted(r)
    ensures Get(r, k) == Some(v)
    ensures forall k' :: k' != k ==> Get(r, k') == Get(m, k')
    ensures |r| > 0 && (r[0].0 == k || (|m| > 0 && r[0].0 == m[0].0))
  {
    if |m| == 0 then [(k, v)]
    else if k < m[0].0 then [(k, v)] + m
    else if k == m[0].0 then [(k, v)] + m[1..]
    else
      var t := Put(m[1..], k, v);
      PutBehind(m, k, v, t);
      [m[0]] + t
  }

  /** Storing behind the first entry: what the store into the rest gives, with that entry in front. */
  lemma PutBehind<V>(m: Entries<V>, k: nat, v: V, t: Entries<V>)
    requires Sorted(m) && |m| > 0 && k > m[0].0
    requires Sorted(t) && Get(t, k) == Some(v) && forall k' :: k' != k ==> Get(t, k') == Get(m[1..], k')
    requires |t| > 0 && (t[0].0 == k || (|m| > 1 && t[0].0 == m[1].0))
    ensures Sorted([m[0]] + t) && Get([m[0]] + t, k) == Some(v)
    ensures forall k' :: k' != k ==> Get([m[0]] + t, k') == Get(m, k')
  {
    ConsSorted(m[0], t);
    forall k' | k' != k
      ensures Get([m[0]] + t, k') == Get(m, k')
    {
      if k' != m[0].0 {
        assert Get([m[0]] + t, k') == Get(t, k');
      }
    }
  }

  /** An entry in front of a sorted map with larger keys keeps it sorted, and is peeled off again by `[1..]`. */
  lemma ConsSorted<V>(h: (nat, V), t: Entries<V>)
    requires Sorted(t) && (|t| == 0 || h.0 < t[0].0)
    ensures Sorted([h] + t) && ([h] + t)[1..] == t
  {
    var r := [h] + t;
    forall i, j | 0 <= i < j < |r|
      ensures r[i].0 < r[j].0
    {
      if i > 0 {
        assert r[i] == t[i - 1] && r[j] == t[j - 1];
      } else if j > 1 {
        assert r[j] == t[j - 1];
      }
    }
  }

  /** A store keeps every key already present. */
  lemma PutKeepsKeys<V>(m: Entries<V>, k: nat, v: V)
    requires Sorted(m)
    ensures forall k' :: Contains(m, k') ==> Contains(Put(m, k, v), k')
  {
    forall k' | Contains(m, k')
      ensures Contains(Put(m, k, v), k')
    {
      assert Get(m, k').Some?;
      if k' != k {
        assert Get(Put(m, k, v), k').Some?;
      }
    }
  }

  /** QMap::remove(k). */
  function Remove<V>(m: Entries<V>, k: nat): (r: Entries<V>)
    requires Sorted(m)
    ensures Sorted(r)
    ensures Get(r, k) == None
    ensures forall k' :: k' != k ==> Get(r, k') == Get(m, k')
    ensures forall e :: e in r ==> e in m
  {
    if |m| == 0 then []
    else if m[0].0 == k then
      RemoveAbsent(m[1..], k);
      m[1..]
    else [m[0]] + Remove(m[1..], k)
  }

  lemma {:induction false} RemoveAbsent<V>(m: Entries<V>, k: nat)
    requires Sorted(m) && forall i :: 0 <= i < |m| ==> k < m[i].0
    ensures Get(m, k) == None
  {
    if |m| > 0 {
      RemoveAbsent(m[1..], k);
    }
  }

  /** Storing the value already held under a key changes nothing. */
  lemma {:induction false} PutSame<V>(m: Entries<V>, k: nat, v: V)
    requires Sorted(m) && Get(m, k) == Some(v)
    ensures Put(m, k, v) == m
  {
    if m[0].0 != k {
      PutSame(m[1..], k, v);
    }
  }

  /** A second store under the same key overrides the first. */
  lemma {:induction false} PutPut<V>(m: Entries<V>, k: nat, a: V, b: V)
    requires Sorted(m)
    ensures Put(Put(m, k, a), k, b) == Put(m, k, b)
  {
    if |m| > 0 && k > m[0].0 {
      PutPut(m[1..], k, a, b);
    }
  }

  /** Replacing the value under a present key keeps the key list. */
  lemma {:induction false} PutKeys<V>(m: Entries<V>, k: nat, v: V)
    requires Sorted(m) && Contains(m, k)
    ensures Keys(Put(m, k, v)) == Keys(m)
  {
    if m[0].0 != k {
      PutKeys(m[1..], k, v);
    }
  }

  /** Replacing the value under a present key changes that entry and no other. */
  lemma {:induction false} PutReplaces<V>(m: Entries<V>, i: nat, v: V)
    requires Sorted(m) && i < |m|
    ensures Put(m, m[i].0, v) == m[i := (m[i].0, v)]
  {
    var k := m[i].0;
    if i > 0 {
      var tail := m[1..];
      assert tail[i - 1] == m[i];
      PutReplaces(tail, i - 1, v);
      assert Put(m, k, v) == [m[0]] + tail[i - 1 := (k, v)];
      var lhs, rhs := [m[0]] + tail[i - 1 := (k, v)], m[i := (k, v)];
      assert |lhs| == |rhs|;
      forall j | 0 <= j < |m|
        ensures lhs[j] == rhs[j]
      {
        if j > 0 {
          assert lhs[j] == tail[i - 1 := (k, v)][j - 1];
          if j != i {
            assert tail[j - 1] == m[j];
          }
        }
      }
      assert lhs == rhs;
    }
  }

  /** Replaces the values, keeping the keys. */
  function MapValues<V>(m: Entries<V>, f: V -> V): (r: Entries<V>)
    ensures |r| == |m|
    ensures forall i :: 0 <= i < |m| ==> r[i] == (m[i].0, f(m[i].1))
  {
    seq(|m|, i requires 0 <= i < |m| => (m[i].0, f(m[i].1)))
  }

  lemma MapValuesKeys<V>(m: Entries<V>, f: V -> V)
    ensures Keys(MapValues(m, f)) == Keys(m)
    ensures Sorted(m) ==> Sorted(MapValues(m, f))
  {
  }

  /** The value under a key after MapValues is the mapped value. */
  lemma {:induction false} GetMapValues<V>(m: Entries<V>, f: V -> V, k: nat)
    ensures Get(MapValues(m, f), k) == (if Contains(m, k) then Some(f(Get(m, k).value)) else None)
  {
    if |m| > 0 {
      assert MapValues(m, f)[1..] == MapValues(m[1..], f);
      GetMapValues(m[1..], f, k);
    }
  }

  /** Every entry after a store is the stored one or an entry that was there before. */
  lemma {:induction false} PutEntries<V>(m: Entries<V>, k: nat, v: V, j: nat)
    requires Sorted(m) && j < |Put(m, k, v)|
    ensures Put(m, k, v)[j] == (k, v) || Put(m, k, v)[j] in m
  {
    if |m| > 0 && j > 0 {
      if k <= m[0].0 {
        PutFrontEntries(m, k, v, j);
      } else {
        PutEntries(m[1..], k, v, j - 1);
        PutBehindEntries(m, k, v, j);
      }
    }
  }

  /** A store in front of the first key leaves the old entries after it. */
  lemma PutFrontEntries<V>(m: Entries<V>, k: nat, v: V, j: nat)
    requires Sorted(m) && |m| > 0 && k <= m[0].0 && 0 < j < |Put(m, k, v)|
    ensures Put(m, k, v)[j] in m
  {
    var r := Put(m, k, v);
    if k < m[0].0 {
      assert r == [(k, v)] + m;
      assert r[j] == m[j - 1];
    } else {
      assert r == [(k, v)] + m[1..];
      assert r[j] == m[j];
    }
  }

  /** A store behind the first key: the entries after the first are those of the store into the rest. */
  lemma PutBehindEntries<V>(m: Entries<V>, k: nat, v: V, j: nat)
    requires Sorted(m) && |m| > 0 && k > m[0].0 && 0 < j < |Put(m, k, v)|
    requires Put(m[1..], k, v)[j - 1] == (k, v) || Put(m[1..], k, v)[j - 1] in m[1..]
    ensures Put(m, k, v)[j] == (k, v) || Put(m, k, v)[j] in m
  {
    var tail := Put(m[1..], k, v);
    assert Put(m, k, v) == [m[0]] + tail;
    ConsEntries(m[0], tail, m[1..], (k, v), j);
    assert [m[0]] + m[1..] == m;
  }

  /** Position `j` of a map with an entry in front is position `j` - 1 of the rest. */
  lemma ConsEntries<V>(h: (nat, V), t: Entries<V>, rest: Entries<V>, e: (nat, V), j: nat)
    requires 0 < j <= |t| && (t[j - 1] == e || t[j - 1] in rest)
    ensures ([h] + t)[j] == e || ([h] + t)[j] in [h] + rest
  {
    assert ([h] + t)[j] == t[j - 1];
    if t[j - 1] != e {
      var x :| 0 <= x < |rest| && rest[x] == t[j - 1];
      assert ([h] + rest)[x + 1] == rest[x];
    }
  }

  /** Removes every entry whose key is not listed in `ks`, keeping the others in order. */
  function Restrict<V>(m: Entries<V>, ks: seq<nat>): (r: Entries<V>)
    ensures forall i :: 0 <= i < |r| ==> r[i] in m
    ensures |r| <= |m|
  {
    if |m| == 0 then []
    else (if m[0].0 in ks then [m[0]] else []) + Restrict(m[1..], ks)
  }

  /** After restricting, a key holds its old value when it is listed and nothing otherwise. */
  lemma {:induction false} GetRestrict<V>(m: Entries<V>, ks: seq<nat>, k: nat)
    ensures Get(Restrict(m, ks), k) == (if k in ks then Get(m, k) else None)
  {
    if |m| > 0 {
      var rest := Restrict(m[1..], ks);
      GetRestrict(m[1..], ks, k);
      assert m[0].0 != k ==> Get(m, k) == Get(m[1..], k);
      if m[0].0 in ks {
        var r := [m[0]] + rest;
        assert Restrict(m, ks) == r;
        assert r[1..] == rest;
        assert Get(r, k) == if m[0].0 == k then Some(m[0].1) else Get(rest, k);
      } else {
        assert Restrict(m, ks) == rest;
      }
    }
  }

  lemma {:induction false} RestrictSorted<V>(m: Entries<V>, ks: seq<nat>)
    requires Sorted(m)
    ensures Sorted(Restrict(m, ks))
  {
    if |m| > 0 {
      RestrictSorted(m[1..], ks);
      var rest := Restrict(m[1..], ks);
      assert forall i :: 0 <= i < |rest| ==> rest[i] in m[1..];
      assert forall i :: 0 <= i < |rest| ==> m[0].0 < rest[i].0;
    }
  }

  /** Restricting to a list that holds every key changes nothing. */
  lemma {:induction false} RestrictAll<V>(m: Entries<V>, ks: seq<nat>)
    requires forall i :: 0 <= i < |m| ==> m[i].0 in ks
    ensures Restrict(m, ks) == m
  {
    if |m| > 0 {
      RestrictAll(m[1..], ks);
    }
  }
}
