/**
 * The two replacement policies, on values: how notifyAccess and notifyDelete
 * reorder the recency queue, which key evict pops, and why that key is the
 * least (LRU) or most (MRU) recently accessed one.
 */
module Policies {
  import opened KeyOrder

  /** LeastRecentlyUsed pops the head of the recency queue, MostRecentlyUsed its tail. */
  datatype Policy = LeastRecentlyUsed | MostRecentlyUsed

  /** The simple class name of the algorithm, which the builder computes for the cache's name. */
  function Name(p: Policy): (n: string)
    ensures |n| > 0 && n != "UNKNOWN"
  {
    match p
    case LeastRecentlyUsed => "LeastRecentlyUsed"
    case MostRecentlyUsed => "MostRecentlyUsed"
  }

  /** notifyAccess: remove `k` wherever it is, then push it at the tail (most recent end). */
  function Touch<K(==)>(order: seq<K>, k: K): (r: seq<K>)
    ensures |r| > 0 && r[|r| - 1] == k
    ensures |r| <= |order| + 1
  {
    Without(order, k) + [k]
  }

  /** The key evict pops: the head for LRU, the tail for MRU. */
  function Victim<K>(p: Policy, order: seq<K>): (v: K)
    requires order != []
    ensures v in order
  {
    match p
    case LeastRecentlyUsed => order[0]
    case MostRecentlyUsed => order[|order| - 1]
  }

  /** The queue after popFirst (LRU) or popLast (MRU). */
  function Remaining<K>(p: Policy, order: seq<K>): (r: seq<K>)
    requires order != []
    ensures |r| == |order| - 1
  {
    match p
    case LeastRecentlyUsed =>
      assert order == [order[0]] + order[1..];
      order[1..]
    case MostRecentlyUsed =>
      assert order == order[..|order| - 1] + [order[|order| - 1]];
      order[..|order| - 1]
  }

  /** Touch keeps the order distinct, puts `k` at the tail, and adds no key other than `k`. */
  lemma TouchShape<K>(order: seq<K>, k: K)
    requires Distinct(order)
    ensures Distinct(Touch(order, k))
    ensures |Touch(order, k)| > 0 && Touch(order, k)[|Touch(order, k)| - 1] == k
    ensures forall x :: x in Touch(order, k) <==> x in order || x == k
  {
    WithoutDistinct(order, k);
    WithoutKeeps(order, k);
    AppendDistinct(Without(order, k), k);
  }

  /** When `k` sits at position `i`, Touch cuts it out there and appends it; the other keys keep their order. */
  lemma TouchAt<K>(order: seq<K>, i: nat)
    requires Distinct(order) && i < |order|
    ensures Touch(order, order[i]) == order[..i] + order[i + 1..] + [order[i]]
  {
    WithoutAt(order, i);
  }

  /** Popping the victim is the same as removing it by key: evict's pop agrees with notifyDelete. */
  lemma RemainingIsWithout<K>(p: Policy, order: seq<K>)
    requires Distinct(order) && order != []
    ensures Remaining(p, order) == Without(order, Victim(p, order))
    ensures |Remaining(p, order)| == |order| - 1
  {
    match p
    case LeastRecentlyUsed =>
      WithoutAt(order, 0);
      assert order[..0] + order[1..] == order[1..];
    case MostRecentlyUsed =>
      WithoutAt(order, |order| - 1);
      assert order[..|order| - 1] + order[|order|..] == order[..|order| - 1];
  }

  /** Time (position in the access history `h`) of the last access to `x`. */
  function LastAccess<K(==)>(h: seq<K>, x: K): (t: nat)
    requires x in h
    ensures t < |h| && h[t] == x
    ensures forall j :: t < j < |h| ==> h[j] != x
  {
    if h[|h| - 1] == x then |h| - 1
    else
      assert x in h[..|h| - 1] by {
        var i :| 0 <= i < |h| && h[i] == x;
        assert i < |h| - 1 && h[..|h| - 1][i] == x;
      }
      LastAccess(h[..|h| - 1], x)
  }

  /**
   * The recency order lists every key it holds by strictly increasing time of
   * last access in the history `h`: the head was touched longest ago.
   */
  ghost predicate ReflectsHistory<K>(order: seq<K>, h: seq<K>) {
    && (forall i :: 0 <= i < |order| ==> order[i] in h)
    && (forall i, j :: 0 <= i < j < |order| ==> LastAccess(h, order[i]) < LastAccess(h, order[j]))
  }

  /** One more access to `k` moves `k`'s last access to the end and leaves every other key's alone. */
  lemma LastAccessAppend<K>(h: seq<K>, k: K, x: K)
    requires x in h + [k]
    ensures LastAccess(h + [k], x) == if x == k then |h| else LastAccess(h, x)
  {
    if x != k {
      assert (h + [k])[..|h|] == h;
    }
  }

  /** An order that reflects the history is distinct. */
  lemma ReflectsDistinct<K>(order: seq<K>, h: seq<K>)
    requires ReflectsHistory(order, h)
    ensures Distinct(order)
  {
  }

  /** Cutting one position out of an order keeps it consistent with the history. */
  lemma CutReflects<K>(order: seq<K>, h: seq<K>, i: nat)
    requires ReflectsHistory(order, h) && i < |order|
    ensures ReflectsHistory(order[..i] + order[i + 1..], h)
  {
    var r := order[..i] + order[i + 1..];
    assert forall a :: 0 <= a < |r| ==> r[a] == order[if a < i then a else a + 1];
    forall a, b | 0 <= a < b < |r| ensures LastAccess(h, r[a]) < LastAccess(h, r[b]) {
      var a' := if a < i then a else a + 1;
      var b' := if b < i then b else b + 1;
      assert r[a] == order[a'] && r[b] == order[b'] && a' < b';
    }
  }

  /** notifyDelete keeps the order consistent with the history. */
  lemma WithoutReflects<K>(order: seq<K>, h: seq<K>, k: K)
    requires ReflectsHistory(order, h)
    ensures ReflectsHistory(Without(order, k), h)
  {
    ReflectsDistinct(order, h);
    if k in order {
      var i :| 0 <= i < |order| && order[i] == k;
      WithoutAt(order, i);
      CutReflects(order, h, i);
    } else {
      WithoutAbsent(order, k);
    }
  }

  /** notifyAccess of `k` keeps the order consistent with the history extended by that access. */
  lemma {:induction false} TouchReflects<K>(order: seq<K>, h: seq<K>, k: K)
    requires ReflectsHistory(order, h)
    ensures ReflectsHistory(Touch(order, k), h + [k])
  {
    var w := Without(order, k);
    WithoutReflects(order, h, k);
    WithoutKeeps(order, k);
    var r := w + [k];
    forall a | 0 <= a < |r| ensures r[a] in h + [k] {
      if a < |w| { assert r[a] == w[a]; }
    }
    forall a, b | 0 <= a < b < |r| ensures LastAccess(h + [k], r[a]) < LastAccess(h + [k], r[b]) {
      assert r[a] == w[a] && w[a] in w;
      LastAccessAppend(h, k, r[a]);
      LastAccessAppend(h, k, r[b]);
      if b < |w| {
        assert r[b] == w[b];
      }
    }
  }

  /**
   * The key evict picks is, among the keys in the queue, the one whose last
   * access is the oldest (LRU) or the newest (MRU).
   */
  lemma VictimByLastAccess<K>(p: Policy, order: seq<K>, h: seq<K>)
    requires ReflectsHistory(order, h) && order != []
    ensures Victim(p, order) in order
    ensures p == LeastRecentlyUsed ==>
      forall x :: x in order ==> LastAccess(h, Victim(p, order)) <= LastAccess(h, x)
    ensures p == MostRecentlyUsed ==>
      forall x :: x in order ==> LastAccess(h, x) <= LastAccess(h, Victim(p, order))
  {
    forall x | x in order
      ensures p == LeastRecentlyUsed ==> LastAccess(h, Victim(p, order)) <= LastAccess(h, x)
      ensures p == MostRecentlyUsed ==> LastAccess(h, x) <= LastAccess(h, Victim(p, order))
    {
      var j :| 0 <= j < |order| && order[j] == x;
    }
  }
}
