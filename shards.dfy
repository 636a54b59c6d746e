/**
 * One cache set and its replacement algorithm's recency queue, as a value.
 * The functions here say what HashMapCacheSet's put, get, containsKey and
 * remove, and the algorithm's evict, do to the pair (entries, queue); the
 * classes in CacheSets are proved to do exactly this, and the lemmas below
 * prove what the CacheSet interface and the replacement algorithms promise.
 */
module Shards {
  import opened Optional
  import opened KeyOrder
  import opened Policies

  /** The checked exceptions of the core. */
  datatype Failure = EvictionNotPossible | CacheMiss

  /** A returned value or a thrown exception. */
  datatype Outcome<+T> = Ok(value: T) | Fail(error: Failure)

  /** A cache set's entries together with the recency queue of the algorithm attached to it. */
  datatype Shard<K, V> = Shard(blocks: map<K, V>, order: seq<K>)

  /** What a set operation leaves behind and what it returns. */
  datatype Step<K, V, R> = Step(shard: Shard<K, V>, result: R)

  /** The algorithm's queue holds exactly the set's keys, each once: the algorithm belongs to this set alone. */
  ghost predicate Tracks<K, V>(s: Shard<K, V>) {
    && Distinct(s.order)
    && (forall k :: k in s.blocks ==> k in s.order)
    && (forall i :: 0 <= i < |s.order| ==> s.order[i] in s.blocks)
  }

  /** The set invariant: the queue tracks the keys, and there are at most `capacity` entries. */
  ghost predicate Inv<K, V>(s: Shard<K, V>, capacity: int) {
    Tracks(s) && |s.blocks| <= capacity
  }

  /** An order of distinct keys holds as many keys as it has positions. */
  lemma {:induction false} DistinctCount<K>(s: seq<K>)
    requires Distinct(s)
    ensures |(set x | x in s)| == |s|
  {
    if s != [] {
      var n := |s| - 1;
      var front := s[..n];
      assert Distinct(front) by {
        forall a, b | 0 <= a < b < |front| ensures front[a] != front[b] {
          assert front[a] == s[a] && front[b] == s[b];
        }
      }
      DistinctCount(front);
      assert s[n] !in front by {
        forall j | 0 <= j < n ensures front[j] != s[n] {
          assert front[j] == s[j];
        }
      }
      assert s == front + [s[n]];
      assert (set x | x in s) == (set x | x in front) + {s[n]};
    }
  }

  /** A tracking queue lists each entry exactly once, so the set holds as many entries as the queue holds keys. */
  lemma TracksCount<K, V>(s: Shard<K, V>)
    requires Tracks(s)
    ensures |s.blocks| == |s.order|
  {
    DistinctCount(s.order);
    assert s.blocks.Keys == set x | x in s.order;
  }

  /** A new set with a new algorithm, or a set after clear (which resets the algorithm). */
  function Empty<K, V>(): Shard<K, V> {
    Shard(map[], [])
  }

  /** remove: drop the entry if present and notify the algorithm of the deletion; the old value, or null. */
  function RemoveEntry<K(==), V>(s: Shard<K, V>, k: K): (r: Step<K, V, Option<V>>)
    ensures k !in r.shard.blocks && r.shard.blocks.Keys <= s.blocks.Keys
    ensures r.result.Some? <==> k in s.blocks
  {
    if k in s.blocks then Step(Shard(s.blocks - {k}, Without(s.order, k)), Some(s.blocks[k]))
    else Step(s, None)
  }

  /** evict: refuse on an empty set or queue, otherwise pop the victim and remove it from the set. */
  function Evict<K(==), V>(p: Policy, s: Shard<K, V>): (r: Step<K, V, Outcome<Option<V>>>)
    ensures r.result.Fail? ==> r.shard == s && r.result.error == EvictionNotPossible
    ensures r.result.Ok? ==> s.order != [] && Victim(p, s.order) !in r.shard.blocks
  {
    if |s.blocks| == 0 || s.order == [] then Step(s, Fail(EvictionNotPossible))
    else
      var removed := RemoveEntry(Shard(s.blocks, Remaining(p, s.order)), Victim(p, s.order));
      Step(removed.shard, Ok(removed.result))
  }

  /**
   * put: overwrite an existing entry; otherwise evict first when the set holds
   * exactly `capacity` entries (and give up, unchanged, if that fails), then
   * insert. Every successful put notifies the algorithm of an access.
   */
  function Put<K(==), V>(p: Policy, capacity: int, s: Shard<K, V>, k: K, v: V): (r: Step<K, V, Outcome<Option<V>>>)
    ensures r.result.Ok? ==> k in r.shard.blocks && r.shard.blocks[k] == v
    ensures r.result.Ok? ==> |r.shard.order| > 0 && r.shard.order[|r.shard.order| - 1] == k
    ensures r.result.Fail? ==> r.shard == s && k !in s.blocks && |s.blocks| == capacity
  {
    if k in s.blocks then
      Step(Shard(s.blocks[k := v], Touch(s.order, k)), Ok(Some(s.blocks[k])))
    else if |s.blocks| == capacity then
      var e := Evict(p, s);
      if e.result.Fail? then e
      else Step(Shard(e.shard.blocks[k := v], Touch(e.shard.order, k)), e.result)
    else
      Step(Shard(s.blocks[k := v], Touch(s.order, k)), Ok(None))
  }

  /** get: the value, after notifying the algorithm of the access, or CacheMiss. */
  function Get<K(==), V>(s: Shard<K, V>, k: K): (r: Step<K, V, Outcome<V>>)
    ensures r.shard.blocks == s.blocks
    ensures r.result.Ok? <==> k in s.blocks
    ensures r.result.Ok? ==> r.result.value == s.blocks[k]
    ensures r.result.Fail? ==> r.shard == s && r.result.error == CacheMiss
  {
    if k in s.blocks then Step(Shard(s.blocks, Touch(s.order, k)), Ok(s.blocks[k]))
    else Step(s, Fail(CacheMiss))
  }

  /** containsKey is implemented by get, so a hit is also an access. */
  function ContainsKey<K(==), V>(s: Shard<K, V>, k: K): (r: Step<K, V, bool>)
    ensures r.result <==> k in s.blocks
    ensures r.shard.blocks == s.blocks
  {
    var g := Get(s, k);
    Step(g.shard, g.result.Ok?)
  }

  /** remove deletes exactly `k`, returns its value when it was present, and keeps the invariant. */
  lemma RemoveEntryMeaning<K, V>(s: Shard<K, V>, capacity: int, k: K)
    requires Inv(s, capacity)
    ensures var r := RemoveEntry(s, k);
      && Inv(r.shard, capacity)
      && r.shard.blocks.Keys == s.blocks.Keys - {k}
      && (forall x :: x in r.shard.blocks ==> r.shard.blocks[x] == s.blocks[x])
      && (r.result.Some? <==> k in s.blocks)
      && (k in s.blocks ==> r.result.value == s.blocks[k])
      && (k !in s.blocks ==> r.shard == s)
  {
    if k in s.blocks {
      WithoutDistinct(s.order, k);
      WithoutKeeps(s.order, k);
      var blocks := s.blocks - {k};
      var order := Without(s.order, k);
      assert |blocks| == |s.blocks| - 1;
      forall i | 0 <= i < |order| ensures order[i] in blocks {
        assert order[i] in order && order[i] in s.order;
        var j :| 0 <= j < |s.order| && s.order[j] == order[i];
      }
    }
  }

  /**
   * On a tracked set, evict fails exactly when the set is empty (the two
   * emptiness tests agree); otherwise it removes the victim the policy picks,
   * which is an entry of the set, and returns that entry's value.
   */
  lemma EvictMeaning<K, V>(p: Policy, s: Shard<K, V>, capacity: int)
    requires Inv(s, capacity)
    ensures var e := Evict(p, s);
      && (e.result.Fail? <==> s.blocks == map[])
      && (e.result.Fail? ==> e.shard == s && e.result.error == EvictionNotPossible)
      && (e.result.Ok? ==>
            var x := Victim(p, s.order);
            && x in s.blocks
            && e.result.value == Some(s.blocks[x])
            && e.shard.blocks == s.blocks - {x}
            && e.shard.order == Remaining(p, s.order)
            && |e.shard.blocks| == |s.blocks| - 1
            && Inv(e.shard, capacity))
  {
    if s.blocks != map[] {
      OrderNonEmpty(s);
      EvictIsRemoveVictim(p, s);
      RemoveEntryMeaning(s, capacity, Victim(p, s.order));
    }
  }

  /** A tracked set with an entry has a non-empty queue. */
  lemma OrderNonEmpty<K, V>(s: Shard<K, V>)
    requires Tracks(s) && s.blocks != map[]
    ensures s.order != []
  {
    var k0 :| k0 in s.blocks;
    assert k0 in s.order;
  }

  /** On a tracked, non-empty set, evict is remove applied to the victim. */
  lemma EvictIsRemoveVictim<K, V>(p: Policy, s: Shard<K, V>)
    requires Tracks(s) && s.order != []
    ensures Victim(p, s.order) in s.blocks
    ensures Remaining(p, s.order) == Without(s.order, Victim(p, s.order))
    ensures var r := RemoveEntry(s, Victim(p, s.order));
      Evict(p, s) == Step(r.shard, Ok(r.result))
  {
    var x := Victim(p, s.order);
    assert x == s.order[if p == LeastRecentlyUsed then 0 else |s.order| - 1];
    RemainingIsWithout(p, s.order);
    WithoutAbsent(Remaining(p, s.order), x);
  }

  /**
   * put keeps the set invariant: the queue keeps tracking the keys and the
   * set never grows past its capacity.
   */
  lemma PutKeepsInv<K, V>(p: Policy, capacity: int, s: Shard<K, V>, k: K, v: V)
    requires Inv(s, capacity)
    ensures Inv(Put(p, capacity, s, k, v).shard, capacity)
  {
    if k in s.blocks {
      StoreKeepsTracks(s, k, v);
    } else if |s.blocks| == capacity {
      EvictMeaning(p, s, capacity);
      var e := Evict(p, s);
      if e.result.Ok? {
        StoreKeepsTracks(e.shard, k, v);
      }
    } else {
      StoreKeepsTracks(s, k, v);
    }
  }

  /** Storing `k` and notifying its access keeps a tracked set tracked. */
  lemma StoreKeepsTracks<K, V>(s: Shard<K, V>, k: K, v: V)
    requires Tracks(s)
    ensures Tracks(Shard(s.blocks[k := v], Touch(s.order, k)))
  {
    TouchShape(s.order, k);
    var t := Touch(s.order, k);
    forall i | 0 <= i < |t| ensures t[i] in s.blocks[k := v] {
      assert t[i] in t;
      if t[i] != k {
        assert t[i] in s.order;
        var j :| 0 <= j < |s.order| && s.order[j] == t[i];
      }
    }
  }

  /**
   * What put returns on a set that keeps its invariant and has room for at
   * least one entry: it never fails; an existing key gets the new value, the
   * old value is returned and nothing is evicted; a new key in a set with room
   * is inserted and null returned; a new key in a full set evicts the policy's
   * victim, whose value is returned, and the size stays at capacity. In every
   * case `k` then maps to `v` and is the most recently accessed key.
   */
  lemma PutMeaning<K, V>(p: Policy, capacity: int, s: Shard<K, V>, k: K, v: V)
    requires Inv(s, capacity) && capacity > 0
    ensures var r := Put(p, capacity, s, k, v);
      && r.result.Ok?
      && k in r.shard.blocks && r.shard.blocks[k] == v
      && r.shard.order[|r.shard.order| - 1] == k
      && (k in s.blocks ==>
            r.result.value == Some(s.blocks[k]) && r.shard.blocks == s.blocks[k := v])
      && (k !in s.blocks && |s.blocks| < capacity ==>
            r.result.value == None && r.shard.blocks == s.blocks[k := v]
            && |r.shard.blocks| == |s.blocks| + 1)
      && (k !in s.blocks && |s.blocks| == capacity ==>
            var x := Victim(p, s.order);
            && x in s.blocks
            && r.result.value == Some(s.blocks[x])
            && r.shard.blocks == (s.blocks - {x})[k := v]
            && |r.shard.blocks| == capacity)
  {
    var r := Put(p, capacity, s, k, v);
    PutKeepsInv(p, capacity, s, k, v);
    if k !in s.blocks && |s.blocks| == capacity {
      EvictMeaning(p, s, capacity);
    }
    TouchShape(Put(p, capacity, s, k, v).shard.order, k);
  }

  /**
   * A put that fails leaves the set exactly as it was and did not admit the
   * key; on a tracked set this happens only when the capacity is zero.
   */
  lemma PutFailureUnchanged<K, V>(p: Policy, capacity: int, s: Shard<K, V>, k: K, v: V)
    requires Put(p, capacity, s, k, v).result.Fail?
    ensures Put(p, capacity, s, k, v).shard == s
    ensures Put(p, capacity, s, k, v).result.error == EvictionNotPossible
    ensures k !in s.blocks && |s.blocks| == capacity
    ensures Inv(s, capacity) ==> capacity == 0
  {
    if Inv(s, capacity) {
      EvictMeaning(p, s, capacity);
    }
  }

  /** Round trip: after a successful put(k, v), get(k) hits and returns v. */
  lemma PutThenGet<K, V>(p: Policy, capacity: int, s: Shard<K, V>, k: K, v: V)
    requires Put(p, capacity, s, k, v).result.Ok?
    ensures Get(Put(p, capacity, s, k, v).shard, k).result == Ok(v)
  {
  }

  /**
   * get and containsKey answer the same question: they hit exactly when the key
   * has an entry, leave the entries alone, keep the invariant, and a miss
   * changes nothing.
   */
  lemma GetMeaning<K, V>(s: Shard<K, V>, capacity: int, k: K)
    requires Inv(s, capacity)
    ensures var g := Get(s, k);
      && Inv(g.shard, capacity)
      && g.shard.blocks == s.blocks
      && (g.result.Ok? <==> k in s.blocks)
      && (k in s.blocks ==> g.result.value == s.blocks[k] && g.shard.order[|g.shard.order| - 1] == k)
      && (k !in s.blocks ==> g.shard == s && g.result == Fail(CacheMiss))
      && ContainsKey(s, k) == Step(g.shard, k in s.blocks)
  {
    if k in s.blocks {
      StoreKeepsTracks(s, k, s.blocks[k]);
      assert s.blocks[k := s.blocks[k]] == s.blocks;
    }
  }

  /** put, get and remove keep the queue ordered by time of last access, the history growing by each access. */
  lemma StepsReflectHistory<K, V>(p: Policy, capacity: int, s: Shard<K, V>, h: seq<K>, k: K, v: V)
    requires ReflectsHistory(s.order, h)
    ensures var r := Put(p, capacity, s, k, v);
      ReflectsHistory(r.shard.order, if r.result.Ok? then h + [k] else h)
    ensures ReflectsHistory(Get(s, k).shard.order, if k in s.blocks then h + [k] else h)
    ensures ReflectsHistory(RemoveEntry(s, k).shard.order, h)
  {
    PutReflectsHistory(p, capacity, s, h, k, v);
    TouchReflects(s.order, h, k);
    WithoutReflects(s.order, h, k);
  }

  /** The put case of StepsReflectHistory. */
  lemma PutReflectsHistory<K, V>(p: Policy, capacity: int, s: Shard<K, V>, h: seq<K>, k: K, v: V)
    requires ReflectsHistory(s.order, h)
    ensures var r := Put(p, capacity, s, k, v);
      ReflectsHistory(r.shard.order, if r.result.Ok? then h + [k] else h)
  {
    if k !in s.blocks && |s.blocks| == capacity {
      var e := Evict(p, s);
      if e.result.Ok? {
        var x := Victim(p, s.order);
        ReflectsDistinct(s.order, h);
        RemainingIsWithout(p, s.order);
        WithoutReflects(s.order, h, x);
        WithoutReflects(Remaining(p, s.order), h, x);
        TouchReflects(e.shard.order, h, k);
      }
    } else {
      TouchReflects(s.order, h, k);
    }
  }

  /**
   * The entry a full set gives up for a new key is the one whose key was
   * accessed longest ago (LRU) or most recently (MRU) among the set's keys.
   */
  lemma PutEvictsByRecency<K, V>(p: Policy, capacity: int, s: Shard<K, V>, h: seq<K>, k: K, v: V)
    requires Inv(s, capacity) && ReflectsHistory(s.order, h)
    requires k !in s.blocks && |s.blocks| == capacity && capacity > 0
    ensures var x := Victim(p, s.order);
      && x in s.blocks && x !in Put(p, capacity, s, k, v).shard.blocks
      && (p == LeastRecentlyUsed ==> forall y :: y in s.blocks ==> LastAccess(h, x) <= LastAccess(h, y))
      && (p == MostRecentlyUsed ==> forall y :: y in s.blocks ==> LastAccess(h, y) <= LastAccess(h, x))
  {
    PutMeaning(p, capacity, s, k, v);
    EvictMeaning(p, s, capacity);
    VictimByLastAccess(p, s.order, h);
  }
}
