/** Small building blocks shared by the whole HTM model: nullable handles,
    the injected random source and the bounded newest-first histories that
    cell matrices, segments and columns keep. */
module Base {

  /** A nullable reference: `None` plays the role of the source's `null`. */
  datatype Option<T> = None | Some(value: T)

  function Min(a: nat, b: nat): nat
  {
    if a <= b then a else b
  }

  /** No element occurs twice. */
  predicate Distinct<T(==)>(s: seq<T>)
  {
    forall i, j :: 0 <= i < j < |s| ==> s[i] != s[j]
  }

  /** The random source the engine draws from. The source calls
      `Math.floor(Math.random() * n)`; here the `next`-th draw is
      `draw(next) % n`, so any value of `[0, n)` can come out, and every
      property proved about the model holds whatever `draw` is. */
  datatype Rng = Rng(draw: nat -> nat, next: nat)

  /** One draw of `Math.floor(Math.random() * n)`; with `n == 0` that
      expression is `0`. */
  function Roll(g: Rng, n: nat): (r: (nat, Rng))
    ensures n > 0 ==> r.0 < n
    ensures n == 0 ==> r.0 == 0
    ensures r.1.next == g.next + 1
  {
    (if n == 0 then 0 else g.draw(g.next) % n, g.(next := g.next + 1))
  }

  /** `history.unshift(x)` followed by
      `if (history.length > limit) history.length = limit`: the newest entry
      goes to the front and the oldest ones fall off the end. */
  function PushFront<T>(history: seq<T>, x: T, limit: nat): (r: seq<T>)
    ensures |r| == Min(|history| + 1, limit)
    ensures |r| > 0 ==> r[0] == x && r[1..] == history[..|r| - 1]
  {
    var h := [x] + history;
    if |h| > limit then h[..limit] else h
  }

  lemma SeqAssoc<T>(a: seq<T>, b: seq<T>, c: seq<T>)
    ensures a + b + c == a + (b + c)
  {
  }

  /** A suffix that extends past a known prefix splits at its end. */
  lemma SliceSplit<T>(s1: seq<T>, t: seq<T>, i: nat)
    requires i <= |s1| <= |t| && t[..|s1|] == s1
    ensures t[i..] == s1[i..] + t[|s1|..]
  {
  }

  lemma MultisetConcat<T>(a: seq<T>, b: seq<T>)
    ensures multiset(a + b) == multiset(a) + multiset(b)
  {
  }

  /** Saving to a history keeps it within its bound and puts the new entry
      at the front; while there is room it loses nothing, and on overflow
      only the oldest entry is dropped. */
  lemma PushFrontBounded<T>(history: seq<T>, x: T, limit: nat)
    requires limit >= 1
    ensures var r := PushFront(history, x, limit);
      && |r| <= limit
      && r[0] == x
      && (|history| < limit ==> r[1..] == history)
      && (|history| >= limit ==> r[1..] == history[..limit - 1])
  {
  }
}
