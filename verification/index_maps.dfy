/**
 * Insertion-ordered maps as `indexmap::IndexMap` keeps them: a sequence of
 * entries whose keys are pairwise distinct.  `insert` on a present key keeps
 * the entry where it is; `remove` is `swap_remove`, which moves the last entry
 * into the hole.
 */
module IndexMaps {
  import opened Results

  predicate DistinctKeys<K(==,!new), V(!new)>(m: seq<(K, V)>) {
    forall i, j :: 0 <= i < j < |m| ==> m[i].0 != m[j].0
  }

  function Keys<K(!new), V(!new)>(m: seq<(K, V)>): (ks: seq<K>)
    ensures |ks| == |m|
    ensures forall i :: 0 <= i < |m| ==> ks[i] == m[i].0
  {
    seq(|m|, i requires 0 <= i < |m| => m[i].0)
  }

  /** Position of the entry for `k`, or `|m|` when there is none. */
  function Find<K(==,!new), V(!new)>(m: seq<(K, V)>, k: K): (i: nat)
    ensures i <= |m|
    ensures i < |m| ==> m[i].0 == k
    ensures forall j :: 0 <= j < i ==> m[j].0 != k
  {
    if |m| == 0 then 0
    else if m[0].0 == k then 0
    else 1 + Find(m[1..], k)
  }

  predicate HasKey<K(==,!new), V(!new)>(m: seq<(K, V)>, k: K) {
    Find(m, k) < |m|
  }

  /** `IndexMap::get`. */
  function Get<K(==,!new), V(!new)>(m: seq<(K, V)>, k: K): (r: Option<V>)
    ensures r.Some? <==> exists i :: 0 <= i < |m| && m[i].0 == k
  {
    var i := Find(m, k);
    if i < |m| then Some(m[i].1) else None
  }

  /** In a map with distinct keys, `get` answers exactly the entries that are present. */
  lemma GetMembership<K(!new), V(!new)>(m: seq<(K, V)>, k: K, v: V)
    requires DistinctKeys(m)
    ensures Get(m, k) == Some(v) <==> (k, v) in m
  {
    var i := Find(m, k);
    if (k, v) in m {
      var j :| 0 <= j < |m| && m[j] == (k, v);
      assert i <= j;
      assert i == j;
    }
  }

  /** Two distinct-key maps with the same entries, up to one excluded key, agree on every other key. */
  lemma GetAgrees<K(!new), V(!new)>(m: seq<(K, V)>, r: seq<(K, V)>, k: K)
    requires DistinctKeys(m) && DistinctKeys(r)
    requires forall v :: (k, v) in r <==> (k, v) in m
    ensures Get(r, k) == Get(m, k)
  {
    if Get(m, k).Some? {
      GetMembership(m, k, Get(m, k).value);
      GetMembership(r, k, Get(m, k).value);
    } else if Get(r, k).Some? {
      GetMembership(m, k, Get(r, k).value);
      GetMembership(r, k, Get(r, k).value);
    }
  }

  /** Find only looks at the keys. */
  lemma FindSameKeys<K(!new), V(!new)>(m: seq<(K, V)>, r: seq<(K, V)>, k: K)
    requires Keys(m) == Keys(r)
    ensures Find(m, k) == Find(r, k)
  {
    assert |m| == |Keys(m)| == |Keys(r)| == |r|;
    assert forall i :: 0 <= i < |m| ==> m[i].0 == r[i].0 by {
      forall i | 0 <= i < |m|
        ensures m[i].0 == r[i].0
      {
        assert Keys(m)[i] == Keys(r)[i];
      }
    }
  }

  /**
   * `IndexMap::insert`: overwrite in place when the key is present, append
   * otherwise.
   */
  function Insert<K(==,!new), V(!new)>(m: seq<(K, V)>, k: K, v: V): (r: seq<(K, V)>)
    requires DistinctKeys(m)
    ensures DistinctKeys(r)
    ensures Get(r, k) == Some(v)
    ensures forall k' :: k' != k ==> Get(r, k') == Get(m, k')
    ensures HasKey(m, k) ==> Keys(r) == Keys(m)
    ensures !HasKey(m, k) ==> Keys(r) == Keys(m) + [k]
  {
    var i := Find(m, k);
    if i < |m| then
      var r := m[i := (k, v)];
      assert forall k' :: k' != k ==> Get(r, k') == Get(m, k') by {
        forall k' | k' != k
          ensures Get(r, k') == Get(m, k')
        {
          assert Keys(r) == Keys(m);
          FindSameKeys(m, r, k');
        }
      }
      assert Keys(r) == Keys(m);
      FindSameKeys(m, r, k);
      r
    else
      var r := m + [(k, v)];
      assert forall k' :: k' != k ==> Get(r, k') == Get(m, k') by {
        forall k' | k' != k
          ensures Get(r, k') == Get(m, k')
        {
          GetAgrees(m, r, k');
        }
      }
      assert Get(r, k) == Some(v) by {
        GetMembership(r, k, v);
      }
      r
  }

  /** Inserting a binding that is already there changes nothing, position included. */
  lemma InsertPresent<K(!new), V(!new)>(m: seq<(K, V)>, k: K, v: V)
    requires DistinctKeys(m)
    requires Get(m, k) == Some(v)
    ensures Insert(m, k, v) == m
  {
    var i := Find(m, k);
    assert m[i] == (k, v);
  }

  /** `IndexMap::remove`, which is `swap_remove`: the last entry moves into the hole. */
  function SwapRemove<K(==,!new), V(!new)>(m: seq<(K, V)>, k: K): (r: seq<(K, V)>)
    requires DistinctKeys(m)
    ensures DistinctKeys(r)
    ensures Get(r, k) == None
    ensures forall k' :: k' != k ==> Get(r, k') == Get(m, k')
    ensures !HasKey(m, k) ==> r == m
    ensures HasKey(m, k) ==> |r| == |m| - 1
    ensures forall j :: 0 <= j < |r| && j != Find(m, k) ==> r[j] == m[j]
    ensures Find(m, k) < |r| ==> r[Find(m, k)] == m[|m| - 1]
  {
    var i := Find(m, k);
    if i == |m| then m
    else if i == |m| - 1 then m[..i]
    else
      var r := m[..i] + [m[|m| - 1]] + m[i + 1..|m| - 1];
      assert forall j :: 0 <= j < |r| && j != i ==> r[j] == m[j];
      assert r[i] == m[|m| - 1];
      assert forall e :: e in r <==> e in m && e != m[i] by {
        forall e
          ensures e in r <==> e in m && e != m[i]
        {
          if e in m && e != m[i] {
            var j :| 0 <= j < |m| && m[j] == e;
            if j == |m| - 1 { assert r[i] == e; } else { assert r[j] == e; }
          }
        }
      }
      assert forall k' :: k' != k ==> Get(r, k') == Get(m, k') by {
        forall k' | k' != k
          ensures Get(r, k') == Get(m, k')
        {
          GetAgrees(m, r, k');
        }
      }
      r
  }

  /** Insert every entry of `ps` in order (`for (k, v) in ps { m.insert(k, v) }`). */
  function InsertAll<K(==,!new), V(!new)>(m: seq<(K, V)>, ps: seq<(K, V)>): (r: seq<(K, V)>)
    requires DistinctKeys(m)
    ensures DistinctKeys(r)
    decreases |ps|
  {
    if |ps| == 0 then m
    else InsertAll(Insert(m, ps[0].0, ps[0].1), ps[1..])
  }

  /** Keys that `ps` does not mention keep their binding. */
  lemma {:induction false} InsertAllKeeps<K(!new), V(!new)>(m: seq<(K, V)>, ps: seq<(K, V)>, k: K)
    requires DistinctKeys(m)
    requires !HasKey(ps, k)
    ensures Get(InsertAll(m, ps), k) == Get(m, k)
    decreases |ps|
  {
    if |ps| > 0 {
      assert ps[0].0 != k;
      assert !HasKey(ps[1..], k);
      InsertAllKeeps(Insert(m, ps[0].0, ps[0].1), ps[1..], k);
    }
  }

  /** With distinct keys in `ps`, every key of `ps` ends up bound to its value in `ps`. */
  lemma {:induction false} InsertAllOverlays<K(!new), V(!new)>(m: seq<(K, V)>, ps: seq<(K, V)>, k: K)
    requires DistinctKeys(m) && DistinctKeys(ps)
    requires HasKey(ps, k)
    ensures Get(InsertAll(m, ps), k) == Get(ps, k)
    decreases |ps|
  {
    var m' := Insert(m, ps[0].0, ps[0].1);
    if ps[0].0 == k {
      assert !HasKey(ps[1..], k);
      InsertAllKeeps(m', ps[1..], k);
    } else {
      assert HasKey(ps[1..], k);
      InsertAllOverlays(m', ps[1..], k);
    }
  }

  /** Entries already in `m` keep their positions; new keys only ever go after them. */
  lemma {:induction false} InsertAllKeepsOrder<K(!new), V(!new)>(m: seq<(K, V)>, ps: seq<(K, V)>)
    requires DistinctKeys(m)
    ensures |m| <= |InsertAll(m, ps)|
    ensures Keys(InsertAll(m, ps))[..|m|] == Keys(m)
    decreases |ps|
  {
    if |ps| > 0 {
      var m' := Insert(m, ps[0].0, ps[0].1);
      InsertAllKeepsOrder(m', ps[1..]);
      assert Keys(m')[..|m|] == Keys(m);
      assert Keys(InsertAll(m, ps))[..|m|] == Keys(InsertAll(m', ps[1..]))[..|m'|][..|m|];
    }
  }

  /** Inserting bindings that are all already present changes nothing. */
  lemma {:induction false} InsertAllPresent<K(!new), V(!new)>(m: seq<(K, V)>, ps: seq<(K, V)>)
    requires DistinctKeys(m)
    requires forall i :: 0 <= i < |ps| ==> Get(m, ps[i].0) == Some(ps[i].1)
    ensures InsertAll(m, ps) == m
    decreases |ps|
  {
    if |ps| > 0 {
      InsertPresent(m, ps[0].0, ps[0].1);
      assert forall i :: 0 <= i < |ps[1..]| ==> ps[1..][i] == ps[i + 1];
      InsertAllPresent(m, ps[1..]);
    }
  }

  /** The value of the last entry for `k` in a list of pairs that may repeat keys. */
  function LastValue<K(==,!new), V(!new)>(ps: seq<(K, V)>, k: K): (r: Option<V>)
    ensures r.Some? <==> exists i :: 0 <= i < |ps| && ps[i].0 == k
    decreases |ps|
  {
    if |ps| == 0 then None
    else if ps[|ps| - 1].0 == k then Some(ps[|ps| - 1].1)
    else
      var r := LastValue(ps[..|ps| - 1], k);
      assert forall i :: 0 <= i < |ps| - 1 ==> ps[..|ps| - 1][i] == ps[i];
      r
  }

  lemma {:induction false} LastValueCons<K(!new), V(!new)>(ps: seq<(K, V)>, k: K)
    requires |ps| > 0
    ensures LastValue(ps, k) ==
      if LastValue(ps[1..], k).Some? then LastValue(ps[1..], k)
      else if ps[0].0 == k then Some(ps[0].1) else None
    decreases |ps|
  {
    if |ps| > 1 {
      var init := ps[..|ps| - 1];
      LastValueCons(init, k);
      assert init[1..] == ps[1..][..|ps[1..]| - 1];
      assert ps[1..][|ps[1..]| - 1] == ps[|ps| - 1];
    }
  }

  /** In a concatenation the later part wins. */
  lemma {:induction false} LastValueAppend<K(!new), V(!new)>(a: seq<(K, V)>, b: seq<(K, V)>, k: K)
    ensures LastValue(a + b, k) == if LastValue(b, k).Some? then LastValue(b, k) else LastValue(a, k)
    decreases |b|
  {
    if |b| > 0 {
      assert (a + b)[..|a + b| - 1] == a + b[..|b| - 1];
      LastValueAppend(a, b[..|b| - 1], k);
    } else {
      assert a + b == a;
    }
  }

  /**
   * Collecting pairs into a map (`collect::<IndexMap<_, _>>()`): the last
   * value given for a key wins.
   */
  lemma {:induction false} InsertAllLast<K(!new), V(!new)>(m: seq<(K, V)>, ps: seq<(K, V)>, k: K)
    requires DistinctKeys(m)
    ensures Get(InsertAll(m, ps), k) == if LastValue(ps, k).Some? then LastValue(ps, k) else Get(m, k)
    decreases |ps|
  {
    if |ps| > 0 {
      var m' := Insert(m, ps[0].0, ps[0].1);
      InsertAllLast(m', ps[1..], k);
      LastValueCons(ps, k);
    }
  }

  /**
   * The entries whose key satisfies `p`, in map order (`iter().filter(..)`).
   */
  function FilterByKey<K(==,!new), V(!new)>(m: seq<(K, V)>, p: K -> bool): (r: seq<(K, V)>)
    requires DistinctKeys(m)
    ensures DistinctKeys(r)
    ensures forall e :: e in r <==> e in m && p(e.0)
  {
    if |m| == 0 then []
    else
      var rest := FilterByKey(m[1..], p);
      assert forall e :: e in m <==> e == m[0] || e in m[1..];
      if p(m[0].0) then [m[0]] + rest else rest
  }

  /** The filter keeps exactly the bindings whose key passes. */
  lemma FilterByKeyGet<K(!new), V(!new)>(m: seq<(K, V)>, p: K -> bool, k: K)
    requires DistinctKeys(m)
    ensures Get(FilterByKey(m, p), k) == if p(k) then Get(m, k) else None
  {
    var r := FilterByKey(m, p);
    if p(k) {
      GetAgrees(m, r, k);
    } else if Get(r, k).Some? {
      GetMembership(r, k, Get(r, k).value);
    }
  }

  /** The filter keeps the entries in map order. */
  lemma {:induction false} FilterByKeyOrdered<K(!new), V(!new)>(m: seq<(K, V)>, p: K -> bool)
    requires DistinctKeys(m)
    ensures var r := FilterByKey(m, p);
      forall i, j :: 0 <= i < j < |r| ==> Find(m, r[i].0) < Find(m, r[j].0)
  {
    if |m| > 0 {
      FilterByKeyOrdered(m[1..], p);
      var r := FilterByKey(m, p);
      forall i, j | 0 <= i < j < |r|
        ensures Find(m, r[i].0) < Find(m, r[j].0)
      {
        FilterStep(m, p, i, j);
      }
    }
  }

  lemma FilterStep<K(!new), V(!new)>(m: seq<(K, V)>, p: K -> bool, i: nat, j: nat)
    requires DistinctKeys(m) && |m| > 0
    requires var rest := FilterByKey(m[1..], p);
      forall i, j :: 0 <= i < j < |rest| ==> Find(m[1..], rest[i].0) < Find(m[1..], rest[j].0)
    requires i < j < |FilterByKey(m, p)|
    ensures Find(m, FilterByKey(m, p)[i].0) < Find(m, FilterByKey(m, p)[j].0)
  {
    var rest := FilterByKey(m[1..], p);
    var r := FilterByKey(m, p);
    if p(m[0].0) {
      assert r == [m[0]] + rest;
      FilterTailKey(m, p, j - 1);
      assert r[j] == rest[j - 1];
      if i > 0 {
        FilterTailKey(m, p, i - 1);
        assert r[i] == rest[i - 1];
      }
    } else {
      assert r == rest;
      FilterTailKey(m, p, i);
      FilterTailKey(m, p, j);
    }
  }

  lemma FilterTailKey<K(!new), V(!new)>(m: seq<(K, V)>, p: K -> bool, i: nat)
    requires DistinctKeys(m) && |m| > 0
    requires i < |FilterByKey(m[1..], p)|
    ensures FilterByKey(m[1..], p)[i].0 != m[0].0
  {
    var e := FilterByKey(m[1..], p)[i];
    assert e in FilterByKey(m[1..], p);
    var j :| 0 <= j < |m[1..]| && m[1..][j] == e;
    assert m[j + 1] == e;
  }
}
