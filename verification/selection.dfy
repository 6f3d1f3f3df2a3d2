/** The column selection of `spatialPooling` (htm.controller.js lines
    129-146): the columns are visited in layer order, and each one is
    inserted into a list of at most `activeColumnCount` winners in front of
    the first winner with a strictly lower score. The result is the
    `activeColumnCount` best columns, highest score first, ties kept in
    layer order. Columns are named here by their position in the layer and
    scores are given as a sequence of keys. */
module Selection {
  import opened Base

  /** `parseInt((parseFloat(sparsity) / 100) * columnCount)`, at least 1
      (lines 131-134), in exact integer arithmetic. */
  function ActiveColumnCount(sparsity: nat, columnCount: nat): (r: nat)
    ensures r >= 1
    ensures r * 100 <= sparsity * columnCount || r == 1
    ensures sparsity * columnCount < (r + 1) * 100
  {
    var k := sparsity * columnCount / 100;
    if k < 1 then 1 else k
  }

  /** Position `x` goes before position `y`: a higher score, or the same
      score and an earlier position. */
  predicate Before(keys: seq<int>, x: nat, y: nat)
  {
    x < |keys| && y < |keys| && (keys[x] > keys[y] || (keys[x] == keys[y] && x < y))
  }

  /** The inner loop of lines 137-145: the first slot `c < limit` that is
      empty or holds a strictly lower score than position `i`; `limit` when
      there is none. */
  function InsertPos(best: seq<nat>, keys: seq<int>, i: nat, c: nat, limit: nat): (r: nat)
    requires i < |keys| && forall a :: 0 <= a < |best| ==> best[a] < |keys|
    requires c <= limit && c <= |best|
    requires forall a :: 0 <= a < c ==> keys[best[a]] >= keys[i]
    ensures c <= r <= limit && r <= |best|
    ensures r < limit ==> r == |best| || keys[best[r]] < keys[i]
    ensures forall a :: 0 <= a < r ==> keys[best[a]] >= keys[i]
    decreases limit - c
  {
    if c >= limit then c
    else if c >= |best| || keys[best[c]] < keys[i] then c
    else InsertPos(best, keys, i, c + 1, limit)
  }

  /** One column of the outer loop: `bestColumns.splice(c, 0, column)`
      followed by truncation to `limit`, or nothing when no slot qualifies. */
  function InsertTop(best: seq<nat>, keys: seq<int>, i: nat, limit: nat): (r: seq<nat>)
    requires i < |keys| && forall a :: 0 <= a < |best| ==> best[a] < |keys|
  {
    var c := InsertPos(best, keys, i, 0, limit);
    if c >= limit then best
    else
      var full := Spliced(best, c, i);
      if |full| > limit then full[..limit] else full
  }

  /** `best` holds the top `limit` positions among `0..i-1`: as many as
      fit, ordered by `Before`, each ahead of every position left out, and
      nothing is left out while there is room. */
  predicate TopOf(keys: seq<int>, i: nat, best: seq<nat>, limit: nat)
  {
    && |best| == Min(i, limit)
    && (forall a :: 0 <= a < |best| ==> best[a] < i)
    && (forall a, b :: 0 <= a < b < |best| ==> Before(keys, best[a], best[b]))
    && (forall j, a :: 0 <= j < i && j !in best && 0 <= a < |best| ==> Before(keys, best[a], j))
    && (|best| < limit ==> forall j :: 0 <= j < i ==> j in best)
  }

  lemma BeforeTrans(keys: seq<int>, x: nat, y: nat, z: nat)
    requires Before(keys, x, y) && Before(keys, y, z)
    ensures Before(keys, x, z)
  {
  }

  /** `s.splice(c, 0, x)` */
  function Spliced(s: seq<nat>, c: nat, x: nat): (r: seq<nat>)
    requires c <= |s|
    ensures |r| == |s| + 1
    ensures forall a :: 0 <= a < c ==> r[a] == s[a]
    ensures r[c] == x
    ensures forall a :: c < a < |r| ==> r[a] == s[a - 1]
  {
    s[..c] + [x] + s[c..]
  }

  /** Inserting the next position keeps `best` the top of the longer prefix. */
  lemma InsertTopStep(keys: seq<int>, i: nat, best: seq<nat>, limit: nat)
    requires i < |keys| && TopOf(keys, i, best, limit)
    ensures TopOf(keys, i + 1, InsertTop(best, keys, i, limit), limit)
  {
    var c := InsertPos(best, keys, i, 0, limit);
    if c >= limit {
      forall a | 0 <= a < |best| ensures Before(keys, best[a], i) {
        assert keys[best[a]] >= keys[i];
      }
    } else {
      InsertedOrder(keys, i, best, limit, c);
      InsertedDominates(keys, i, best, limit, c);
      InsertedComplete(keys, i, best, limit, c);
    }
  }

  /** The spliced list is ordered: `i` follows the winners in front of slot
      `c` and precedes those from `c` on. */
  lemma InsertedOrder(keys: seq<int>, i: nat, best: seq<nat>, limit: nat, c: nat)
    requires i < |keys| && TopOf(keys, i, best, limit)
    requires c == InsertPos(best, keys, i, 0, limit) && c < limit
    ensures forall a :: 0 <= a < c ==> Before(keys, best[a], i)
    ensures forall a :: c <= a < |best| ==> Before(keys, i, best[a])
    ensures forall a, b :: 0 <= a < b < |Spliced(best, c, i)| ==>
      Before(keys, Spliced(best, c, i)[a], Spliced(best, c, i)[b])
  {
    var full := Spliced(best, c, i);
    forall a | 0 <= a < c ensures Before(keys, best[a], i) {
      assert keys[best[a]] >= keys[i];
    }
    forall a | c <= a < |best| ensures Before(keys, i, best[a]) {
      if a > c { assert Before(keys, best[c], best[a]); }
    }
    forall a, b | 0 <= a < b < |full| ensures Before(keys, full[a], full[b]) {
      if a != c && b != c {
        var a' := if a < c then a else a - 1;
        var b' := if b < c then b else b - 1;
        assert full[a] == best[a'] && full[b] == best[b'] && a' < b';
      }
    }
  }

  /** Every position left out after the insertion follows every winner. */
  lemma InsertedDominates(keys: seq<int>, i: nat, best: seq<nat>, limit: nat, c: nat)
    requires i < |keys| && TopOf(keys, i, best, limit)
    requires c == InsertPos(best, keys, i, 0, limit) && c < limit
    requires forall a :: c <= a < |best| ==> Before(keys, i, best[a])
    requires forall a, b :: 0 <= a < b < |Spliced(best, c, i)| ==>
      Before(keys, Spliced(best, c, i)[a], Spliced(best, c, i)[b])
    ensures var r := InsertTop(best, keys, i, limit);
      forall j, a :: 0 <= j < i + 1 && j !in r && 0 <= a < |r| ==> Before(keys, r[a], j)
  {
    var r := InsertTop(best, keys, i, limit);
    forall j, a | 0 <= j < i + 1 && j !in r && 0 <= a < |r|
      ensures Before(keys, r[a], j)
    {
      if j in best {
        PushedOff(keys, i, best, limit, c, j, a);
      } else {
        LeftOut(keys, i, best, limit, c, j, a);
      }
    }
  }

  /** A winner that drops out is the last one, behind everything kept. */
  lemma PushedOff(keys: seq<int>, i: nat, best: seq<nat>, limit: nat, c: nat, j: nat, a: nat)
    requires i < |keys| && TopOf(keys, i, best, limit)
    requires c == InsertPos(best, keys, i, 0, limit) && c < limit
    requires forall a, b :: 0 <= a < b < |Spliced(best, c, i)| ==>
      Before(keys, Spliced(best, c, i)[a], Spliced(best, c, i)[b])
    requires j in best && j !in InsertTop(best, keys, i, limit) && a < |InsertTop(best, keys, i, limit)|
    ensures Before(keys, InsertTop(best, keys, i, limit)[a], j)
  {
    var full := Spliced(best, c, i);
    var r := InsertTop(best, keys, i, limit);
    assert r == if |full| > limit then full[..limit] else full;
    var d :| 0 <= d < |best| && best[d] == j;
    var d' := if d < c then d else d + 1;
    assert full[d'] == j;
    assert d' >= |r|;
    assert r[a] == full[a];
  }

  /** A position that was already out stays behind every winner, `i`
      included. */
  lemma LeftOut(keys: seq<int>, i: nat, best: seq<nat>, limit: nat, c: nat, j: nat, a: nat)
    requires i < |keys| && TopOf(keys, i, best, limit)
    requires c == InsertPos(best, keys, i, 0, limit) && c < limit
    requires j < i && j !in best && a < |InsertTop(best, keys, i, limit)|
    ensures Before(keys, InsertTop(best, keys, i, limit)[a], j)
  {
    var full := Spliced(best, c, i);
    var r := InsertTop(best, keys, i, limit);
    assert r == if |full| > limit then full[..limit] else full;
    assert |best| == limit;
    assert Before(keys, best[c], j);
    if a == c {
      BeforeTrans(keys, i, best[c], j);
    } else if a > c {
      assert r[a] == best[a - 1];
    } else {
      assert r[a] == best[a];
    }
  }

  /** While there is room, no position is left out. */
  lemma InsertedComplete(keys: seq<int>, i: nat, best: seq<nat>, limit: nat, c: nat)
    requires i < |keys| && TopOf(keys, i, best, limit)
    requires c == InsertPos(best, keys, i, 0, limit) && c < limit
    ensures var r := InsertTop(best, keys, i, limit);
      && |r| == Min(i + 1, limit)
      && (forall a :: 0 <= a < |r| ==> r[a] < i + 1)
      && (|r| < limit ==> forall j :: 0 <= j < i + 1 ==> j in r)
  {
    var full := Spliced(best, c, i);
    var r := InsertTop(best, keys, i, limit);
    assert r == if |full| > limit then full[..limit] else full;
    SplicedBelow(best, c, i, r);
    if |r| < limit {
      SplicedCovers(best, c, i, r);
    }
  }

  /** A prefix of `best` spliced with `i` holds positions below `i + 1`
      when `best` does. */
  lemma SplicedBelow(best: seq<nat>, c: nat, i: nat, r: seq<nat>)
    requires c <= |best| && forall a :: 0 <= a < |best| ==> best[a] < i
    requires r <= Spliced(best, c, i)
    ensures forall a :: 0 <= a < |r| ==> r[a] < i + 1
  {
    var full := Spliced(best, c, i);
    forall a | 0 <= a < |r| ensures r[a] < i + 1 {
      assert r[a] == full[a];
    }
  }

  /** The whole splice of `best` with `i` holds `0..i` when `best` holds
      `0..i-1`. */
  lemma SplicedCovers(best: seq<nat>, c: nat, i: nat, r: seq<nat>)
    requires c <= |best| && forall j :: 0 <= j < i ==> j in best
    requires r == Spliced(best, c, i)
    ensures forall j :: 0 <= j < i + 1 ==> j in r
  {
    forall j | 0 <= j < i + 1 ensures j in r {
      if j < i {
        assert j in best;
        var d :| 0 <= d < |best| && best[d] == j;
        assert r[if d < c then d else d + 1] == j;
      } else {
        assert r[c] == i;
      }
    }
  }

  /** The outer loop of lines 136-146 over positions `i..|keys|-1`. */
  function SelectFrom(keys: seq<int>, i: nat, best: seq<nat>, limit: nat): (r: seq<nat>)
    requires i <= |keys| && TopOf(keys, i, best, limit)
    ensures TopOf(keys, |keys|, r, limit)
    decreases |keys| - i
  {
    if i >= |keys| then best
    else
      InsertTopStep(keys, i, best, limit);
      SelectFrom(keys, i + 1, InsertTop(best, keys, i, limit), limit)
  }

  /** The winning positions: the `Min(limit, |keys|)` best positions,
      highest key first, ties in position order, each ahead of every
      position not chosen. */
  function Select(keys: seq<int>, limit: nat): (r: seq<nat>)
    ensures |r| == Min(|keys|, limit)
    ensures forall a :: 0 <= a < |r| ==> r[a] < |keys|
    ensures forall a, b :: 0 <= a < b < |r| ==>
      keys[r[a]] > keys[r[b]] || (keys[r[a]] == keys[r[b]] && r[a] < r[b])
    ensures Distinct(r)
    ensures forall j, a :: 0 <= j < |keys| && j !in r && 0 <= a < |r| ==>
      keys[r[a]] > keys[j] || (keys[r[a]] == keys[j] && r[a] < j)
  {
    var r := SelectFrom(keys, 0, [], limit);
    assert forall a, b :: 0 <= a < b < |r| ==> Before(keys, r[a], r[b]);
    r
  }
}
