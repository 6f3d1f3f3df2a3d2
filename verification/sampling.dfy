/** The controller's sampling utility `randomIndexes` and the two cyclic
    "smallest key" scans of the engine: the fewest-segments cell chosen on a
    burst and the least recently used segment computed when a cell is full. */
module Sampling {
  import opened Base

  /** `[0, 1, ..., n - 1]`: the list of unprocessed indexes the unordered
      branch starts from. */
  function Range(n: nat): (r: seq<nat>)
    ensures |r| == n
    ensures forall i :: 0 <= i < n ==> r[i] == i
  {
    if n == 0 then [] else Range(n - 1) + [n - 1]
  }

  /** `s.splice(i, 1)` */
  function RemoveAt<T>(s: seq<T>, i: nat): (r: seq<T>)
    requires i < |s|
    ensures |r| == |s| - 1
  {
    s[..i] + s[i + 1..]
  }

  lemma RemoveAtMultiset<T>(s: seq<T>, i: nat)
    requires i < |s|
    ensures multiset(s) == multiset(RemoveAt(s, i)) + multiset{s[i]}
  {
    assert s == s[..i] + [s[i]] + s[i + 1..];
  }

  lemma RemoveAtDistinct<T>(s: seq<T>, i: nat)
    requires i < |s| && Distinct(s)
    ensures Distinct(RemoveAt(s, i))
    ensures s[i] !in RemoveAt(s, i)
  {
    var r := RemoveAt(s, i);
    forall a, b | 0 <= a < b < |r|
      ensures r[a] != r[b]
    {
      var a' := if a < i then a else a + 1;
      var b' := if b < i then b else b + 1;
      assert r[a] == s[a'] && r[b] == s[b'] && a' < b';
    }
    forall a | 0 <= a < |r|
      ensures r[a] != s[i]
    {
      var a' := if a < i then a else a + 1;
      assert r[a] == s[a'] && a' != i;
    }
  }

  /** The unordered branch (lines 628-635): each round draws a position of the
      unprocessed list, takes the index stored there and removes it. */
  function Pick(pool: seq<nat>, count: nat, g: Rng): (r: (seq<nat>, Rng))
    requires count <= |pool|
    ensures |r.0| == count
    ensures multiset(r.0) <= multiset(pool)
    ensures count == |pool| ==> multiset(r.0) == multiset(pool)
    ensures Distinct(pool) ==> Distinct(r.0)
    decreases count
  {
    if count == 0 then ([], g)
    else
      var (i1, g1) := Roll(g, |pool|);
      var rest := Pick(RemoveAt(pool, i1), count - 1, g1);
      RemoveAtMultiset(pool, i1);
      PickDistinctStep(pool, i1, rest.0);
      ([pool[i1]] + rest.0, rest.1)
  }

  lemma PickDistinctStep(pool: seq<nat>, i1: nat, rest: seq<nat>)
    requires i1 < |pool|
    requires multiset(rest) <= multiset(RemoveAt(pool, i1))
    requires Distinct(pool) ==> Distinct(rest)
    ensures Distinct(pool) ==> Distinct([pool[i1]] + rest)
  {
    if Distinct(pool) {
      RemoveAtDistinct(pool, i1);
      assert pool[i1] !in multiset(RemoveAt(pool, i1));
      assert multiset(rest)[pool[i1]] == 0;
      var r := [pool[i1]] + rest;
      forall a, b | 0 <= a < b < |r|
        ensures r[a] != r[b]
      {
        if a == 0 {
          assert r[b] == rest[b - 1];
        }
      }
    }
  }

  /** Position visited at step `j` of a scan over `n` slots that starts at
      `start` and wraps around to 0. */
  function CyclicAt(start: nat, j: nat, n: nat): (r: nat)
    requires start < n && j < n
    ensures r < n
  {
    if start + j < n then start + j else start + j - n
  }

  /** The number of steps a scan from `start` needs to reach slot `k`. */
  function Steps(start: nat, k: nat, n: nat): (r: nat)
    requires start < n && k < n
    ensures r < n
    ensures CyclicAt(start, r, n) == k
  {
    if k >= start then k - start else k + n - start
  }

  lemma StepsOfCyclicAt(start: nat, j: nat, n: nat)
    requires start < n && j < n
    ensures Steps(start, CyclicAt(start, j, n), n) == j
  {
  }

  /** The ordered branch (lines 613-620): from `i1`, take consecutive
      indexes, going back to 0 after `length - 1`. */
  function OrderedRun(i1: nat, count: nat, length: nat): seq<nat>
    decreases count
  {
    if count == 0 then []
    else [i1] + OrderedRun(if i1 + 1 >= length then 0 else i1 + 1, count - 1, length)
  }

  lemma {:induction false} OrderedRunIsCyclic(i1: nat, count: nat, length: nat)
    requires i1 < length && count <= length
    ensures |OrderedRun(i1, count, length)| == count
    decreases count
    ensures forall j :: 0 <= j < count ==> OrderedRun(i1, count, length)[j] == CyclicAt(i1, j, length)
  {
    if count > 0 {
      var next := if i1 + 1 >= length then 0 else i1 + 1;
      OrderedRunIsCyclic(next, count - 1, length);
      var r := OrderedRun(i1, count, length);
      forall j | 0 <= j < count
        ensures r[j] == CyclicAt(i1, j, length)
      {
        if j > 0 {
          assert r[j] == OrderedRun(next, count - 1, length)[j - 1];
        }
      }
    }
  }

  /** Consecutive cyclic positions never repeat within one lap. */
  lemma CyclicRunDistinct(s: seq<nat>, start: nat, length: nat)
    requires start < length && |s| <= length
    requires forall j :: 0 <= j < |s| ==> s[j] == CyclicAt(start, j, length)
    ensures Distinct(s)
  {
    forall a, b | 0 <= a < b < |s|
      ensures s[a] != s[b]
    {
      StepsOfCyclicAt(start, a, length);
      StepsOfCyclicAt(start, b, length);
    }
  }

  /** A full lap visits every position exactly once. */
  lemma CyclicLapIsPermutation(s: seq<nat>, start: nat, length: nat)
    requires start < length && |s| == length
    requires forall j :: 0 <= j < |s| ==> s[j] == CyclicAt(start, j, length)
    ensures multiset(s) == multiset(Range(length))
  {
    var rg := Range(length);
    assert s == rg[start..] + rg[..start];
    assert rg == rg[..start] + rg[start..];
  }

  /** `randomIndexes(length, resultCount, ordered)` (lines 601-638). */
  function RandomIndexes(length: nat, resultCount: nat, ordered: bool, g: Rng): (r: (seq<nat>, Rng))
    ensures |r.0| == Min(resultCount, length)
    ensures forall i :: 0 <= i < |r.0| ==> r.0[i] < length
    ensures Distinct(r.0)
    ensures resultCount >= length ==> multiset(r.0) == multiset(Range(length))
    ensures ordered && |r.0| > 0 ==>
      forall j :: 0 <= j < |r.0| ==> r.0[j] == CyclicAt(r.0[0], j, length)
  {
    var rc := if resultCount > length then length else resultCount;
    if ordered then
      var (i1, g1) := Roll(g, length);
      var run := OrderedRun(i1, rc, length);
      if rc == 0 then (run, g1)
      else
        OrderedRunIsCyclic(i1, rc, length);
        CyclicRunDistinct(run, i1, length);
        if rc == length then
          CyclicLapIsPermutation(run, i1, length);
          (run, g1)
        else (run, g1)
    else
      var picked := Pick(Range(length), rc, g);
      RangeFacts(length);
      assert forall i :: 0 <= i < |picked.0| ==> picked.0[i] in multiset(Range(length));
      picked
  }

  lemma RangeFacts(n: nat)
    ensures Distinct(Range(n))
    ensures forall x :: x in multiset(Range(n)) ==> x < n
  {
  }

  /** `k` holds a smallest key among the slots a scan from `start` reaches
      in fewer than `m` steps, and no such slot with the same key is reached
      before it. */
  predicate FirstMinWithin(keys: seq<int>, start: nat, m: nat, k: nat)
    requires start < |keys| && k < |keys|
  {
    && Steps(start, k, |keys|) < m
    && forall i :: 0 <= i < |keys| && Steps(start, i, |keys|) < m ==>
         keys[k] < keys[i] || (keys[k] == keys[i] && Steps(start, k, |keys|) <= Steps(start, i, |keys|))
  }

  /** `k` holds the smallest key, and it is the first slot with that key in
      the cyclic order that starts at `start`. */
  predicate FirstMinFrom(keys: seq<int>, start: nat, k: nat)
    requires start < |keys|
  {
    k < |keys| && FirstMinWithin(keys, start, |keys|, k)
  }

  /** The fewest-segments loop of `tmActivate` (lines 250-262): `x` starts at
      the random offset and walks the column's cells cyclically; a cell
      replaces the candidate only with strictly fewer segments. */
  function FewestScan(keys: seq<int>, start: nat, c: nat, x: nat, best: nat): (r: nat)
    requires start < |keys| && c <= |keys| && x < |keys| && best < |keys|
    requires c < |keys| ==> x == CyclicAt(start, c, |keys|)
    requires c == 0 ==> best == start
    requires c > 0 ==> FirstMinWithin(keys, start, c, best)
    ensures r < |keys| && FirstMinFrom(keys, start, r)
    decreases |keys| - c
  {
    if c >= |keys| then best
    else
      var best' := if keys[x] < keys[best] then x else best;
      var x' := if x + 1 >= |keys| then 0 else x + 1;
      StepsOfCyclicAt(start, c, |keys|);
      assert FirstMinWithin(keys, start, c + 1, best');
      assert c + 1 < |keys| ==> x' == CyclicAt(start, c + 1, |keys|);
      FewestScan(keys, start, c + 1, x', best')
  }

  /** The cell `tmActivate` picks to learn when no segment matched: the
      first cell with the fewest keys going round from `start`. */
  function FewestFrom(keys: seq<int>, start: nat): (r: nat)
    requires start < |keys|
    ensures r < |keys| && FirstMinFrom(keys, start, r)
  {
    FewestScan(keys, start, 0, start, start)
  }

  /** The least-recently-used loop of `trainSegment` (lines 573-585): the
      index moves first and is then compared, so the scan looks at
      `start + 1, ..., start + n` cyclically. */
  function LruScan(keys: seq<int>, start: nat, s: nat, si: nat, lru: nat): (r: nat)
    requires start < |keys| && s <= |keys| && si < |keys| && lru < |keys|
    requires si == CyclicAt(start, if s < |keys| then s else 0, |keys|)
    requires FirstMinWithin(keys, start, Min(s + 1, |keys|), lru)
    ensures r < |keys| && FirstMinFrom(keys, start, r)
    decreases |keys| - s
  {
    if s >= |keys| then lru
    else
      var si' := if si + 1 >= |keys| then 0 else si + 1;
      var lru' := if keys[si'] < keys[lru] then si' else lru;
      if s + 1 < |keys| then
        StepsOfCyclicAt(start, s + 1, |keys|);
        assert si' == CyclicAt(start, s + 1, |keys|);
        assert FirstMinWithin(keys, start, s + 2, lru');
        LruScan(keys, start, s + 1, si', lru')
      else
        assert si' == start;
        assert lru' == lru;
        LruScan(keys, start, s + 1, si', lru')
  }

  /** The least recently used segment index `trainSegment` computes from a
      random start: a smallest `lastUsedTimestep`, first in cyclic order. */
  function LeastRecentlyUsed(stamps: seq<int>, start: nat): (r: nat)
    requires start < |stamps|
    ensures r < |stamps| && FirstMinFrom(stamps, start, r)
  {
    LruScan(stamps, start, 0, start, start)
  }
}
