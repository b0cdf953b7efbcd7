/**
 * The `priority_queue` of `(key, vertex)` pairs ordered by `greater<>`: a
 * min-queue under the lexicographic order of pairs. Only its contents matter
 * here, so it is a sequence; `Top` is the least pair and `Pop` removes one
 * occurrence of it.
 */
module PriorityQueue {

  /** `a` sorts strictly before `b` in the lexicographic order of pairs. */
  predicate PairLess(a: (int, int), b: (int, int)) {
    a.0 < b.0 || (a.0 == b.0 && a.1 < b.1)
  }

  /** The least pair of a non-empty queue: the one `top()` returns. */
  function Top(pq: seq<(int, int)>): (r: (int, int))
    requires |pq| > 0
    ensures r in pq
    ensures forall x :: x in pq ==> !PairLess(x, r)
  {
    if |pq| == 1 then pq[0]
    else
      var rest := Top(pq[1..]);
      assert forall x :: x in pq ==> x == pq[0] || x in pq[1..];
      if PairLess(pq[0], rest) then pq[0] else rest
  }

  /** The queue with the first occurrence of `x` removed: `pop()` after `top()`. */
  function Remove(pq: seq<(int, int)>, x: (int, int)): (r: seq<(int, int)>)
    ensures x in pq ==> multiset(r) == multiset(pq) - multiset{x}
    ensures x !in pq ==> r == pq
  {
    if |pq| == 0 then []
    else
      assert pq == [pq[0]] + pq[1..];
      if pq[0] == x then pq[1..] else [pq[0]] + Remove(pq[1..], x)
  }

  /** Popping the top keeps every other entry and shortens the queue by one. */
  lemma PopKeeps(pq: seq<(int, int)>, y: (int, int))
    requires |pq| > 0
    ensures |Remove(pq, Top(pq))| == |pq| - 1
    ensures y in pq && y != Top(pq) ==> y in Remove(pq, Top(pq))
    ensures y in Remove(pq, Top(pq)) ==> y in pq
  {
    var r := Remove(pq, Top(pq));
    assert |multiset(r)| == |multiset(pq)| - 1;
    if y in pq && y != Top(pq) {
      assert multiset(r)[y] == multiset(pq)[y];
    }
    if y in r {
      assert multiset(r)[y] > 0;
    }
  }
}
