/**
 * A cache set (HashMapCacheSet) and the replacement algorithm attached to it
 * (LeastRecentlyUsed / MostRecentlyUsed). The two classes call each other:
 * the set notifies its algorithm of every access and deletion, and the
 * algorithm's evict removes its victim through the set. Every operation is
 * proved to do to the pair (entries, recency queue) exactly what the
 * corresponding function of `Shards` does.
 */
module CacheSets {
  import opened Optional
  import opened KeyOrder
  import opened Policies
  import opened Shards
  import opened HashQueues

  /**
   * LeastRecentlyUsed and MostRecentlyUsed in one class: both keep a
   * HashQueue of keys ordered from least to most recently accessed, and
   * differ only in the end of the queue evict pops.
   */
  class ReplacementAlgorithm<K(==), V> {
    const policy: Policy
    var queue: HashQueue<K>
    ghost var Repr: set<object>

    ghost predicate Valid()
      reads this, Repr
    {
      && this in Repr && queue in Repr
      && Repr == {this, queue}
      && queue.Valid()
    }

    /** The recency queue, least recently accessed key first. */
    ghost function Order(): seq<K>
      reads this, queue
    {
      queue.Keys
    }

    /** new LeastRecentlyUsed() / new MostRecentlyUsed(): the constructor resets, so the queue starts empty. */
    constructor (policy: Policy)
      ensures Valid() && fresh(Repr)
      ensures this.policy == policy && Order() == []
    {
      this.policy := policy;
      var q := new HashQueue<K>();
      queue := q;
      Repr := {this, q};
    }

    /** reset: a new, empty queue. */
    method Reset()
      requires Valid()
      modifies Repr
      ensures Valid() && fresh(Repr - old(Repr)) && this in Repr
      ensures Order() == []
    {
      var q := new HashQueue<K>();
      queue := q;
      Repr := {this, q};
    }

    /** notifyAccess: move `key` to the most recently used end, adding it if it was not queued. */
    method NotifyAccess(key: K)
      requires Valid()
      modifies queue
      ensures Valid() && Order() == Touch(old(Order()), key)
    {
      WithoutKeeps(queue.Keys, key);
      queue.Remove(key);
      queue.Push(key);
    }

    /** notifyDelete: drop `key` from the queue; an absent key changes nothing. */
    method NotifyDelete(key: K)
      requires Valid()
      modifies queue
      ensures Valid() && Order() == Without(old(Order()), key)
    {
      queue.Remove(key);
    }

    /**
     * evict: refuse when the set or the queue is empty; otherwise pop the
     * victim (the head for LRU, the tail for MRU) and remove it from the set,
     * returning the removed value.
     */
    method Evict(cacheSet: HashMapCacheSet<K, V>) returns (r: Outcome<Option<V>>)
      requires cacheSet.Valid() && cacheSet.algorithm == this
      modifies cacheSet.Repr
      ensures cacheSet.Valid() && cacheSet.algorithm == this && cacheSet.Repr == old(cacheSet.Repr)
      ensures Step(cacheSet.View(), r) == Shards.Evict(policy, old(cacheSet.View()))
    {
      if cacheSet.IsEmpty() || queue.IsEmpty() {
        return Fail(EvictionNotPossible);
      }
      var top := PopVictim();
      var removed := cacheSet.Remove(top);
      r := Ok(removed);
    }

    /** The pop inside evict: popFirst for LRU, popLast for MRU, on a non-empty queue. */
    method PopVictim() returns (top: K)
      requires Valid() && Order() != []
      modifies queue
      ensures Valid() && top == Victim(policy, old(Order())) && Order() == Remaining(policy, old(Order()))
    {
      var popped: Option<K>;
      if policy == LeastRecentlyUsed {
        popped := queue.PopFirst();
      } else {
        popped := queue.PopLast();
      }
      top := popped.value;
    }
  }

  /** A cache set holding at most `blockSize` entries in a map, with an optional replacement algorithm. */
  class HashMapCacheSet<K(==), V> {
    const blockSize: int
    var blocks: map<K, V>
    var algorithm: ReplacementAlgorithm?<K, V>
    ghost var Repr: set<object>

    ghost predicate Valid()
      reads this, Repr
    {
      && this in Repr
      && (algorithm == null ==> Repr == {this})
      && (algorithm != null ==>
            && algorithm in Repr && algorithm.Repr <= Repr && this !in algorithm.Repr
            && Repr == {this} + algorithm.Repr
            && algorithm.Valid())
    }

    /** The entries and the attached algorithm's recency queue, as a value. */
    ghost function View(): Shard<K, V>
      reads this, algorithm, algorithm.queue
      requires algorithm != null
    {
      Shard(blocks, algorithm.Order())
    }

    /** new HashMapCacheSet(totalBlocks): no entries and no algorithm yet. */
    constructor (totalBlocks: int)
      ensures Valid() && fresh(Repr)
      ensures blockSize == totalBlocks && blocks == map[] && algorithm == null
    {
      blockSize := totalBlocks;
      blocks := map[];
      algorithm := null;
      Repr := {this};
    }

    /** size */
    function Size(): (n: nat)
      reads this
      ensures n == |blocks.Keys|
    {
      |blocks|
    }

    /** maxSize: the capacity the set was built with. */
    function MaxSize(): (n: int)
      reads this
      ensures n == blockSize
    {
      blockSize
    }

    /** isEmpty: size() == 0. */
    function IsEmpty(): (b: bool)
      reads this
      ensures b <==> blocks == map[]
    {
      Size() == 0
    }

    /**
     * size and maxSize of a set whose algorithm tracks its keys: one entry
     * per queued key, never more than maxSize, and empty exactly when the
     * queue is.
     */
    lemma SizeMatchesQueue()
      requires Valid() && algorithm != null && Inv(View(), blockSize)
      ensures Size() == |algorithm.Order()| <= MaxSize()
      ensures IsEmpty() <==> algorithm.Order() == []
    {
      TracksCount(View());
    }

    /** setReplacementAlgorithm: only the first algorithm attached is kept. */
    method SetReplacementAlgorithm(a: ReplacementAlgorithm<K, V>)
      requires Valid() && a.Valid() && this !in a.Repr
      modifies this
      ensures Valid() && blocks == old(blocks)
      ensures algorithm == if old(algorithm) == null then a else old(algorithm)
      ensures Repr == if old(algorithm) == null then old(Repr) + a.Repr else old(Repr)
    {
      if algorithm == null {
        algorithm := a;
        Repr := Repr + a.Repr;
      }
    }

    /** evictOneEntry: EvictionNotPossible without an algorithm, otherwise the algorithm's evict. */
    method EvictOneEntry() returns (r: Outcome<Option<V>>)
      requires Valid()
      modifies Repr
      ensures Valid() && Repr == old(Repr) && algorithm == old(algorithm)
      ensures algorithm == null ==> r == Fail(EvictionNotPossible) && blocks == old(blocks)
      ensures algorithm != null ==> Step(View(), r) == Shards.Evict(algorithm.policy, old(View()))
    {
      if algorithm == null {
        return Fail(EvictionNotPossible);
      }
      r := algorithm.Evict(this);
    }

    /**
     * put: overwrite an existing entry and return its old value; otherwise
     * evict first when the set is full (the evicted value is returned), then
     * insert; finally notify the algorithm of the access. Without an
     * algorithm only the full-set path is defined (it fails to evict).
     */
    method Put(key: K, value: V) returns (r: Outcome<Option<V>>)
      requires Valid()
      requires algorithm != null || (key !in blocks && |blocks| == blockSize)
      modifies Repr
      ensures Valid() && Repr == old(Repr) && algorithm == old(algorithm)
      ensures algorithm == null ==> r == Fail(EvictionNotPossible) && blocks == old(blocks)
      ensures algorithm != null ==> Step(View(), r) == Shards.Put(algorithm.policy, blockSize, old(View()), key, value)
    {
      var oldValue: Option<V> := None;
      if key !in blocks {
        if |blocks| == blockSize {
          var e := EvictOneEntry();
          if e.Fail? {
            return e;
          }
          oldValue := e.value;
        }
        blocks := blocks[key := value];
      } else {
        oldValue := Some(blocks[key]);
        blocks := blocks[key := value];
      }
      algorithm.NotifyAccess(key);
      r := Ok(oldValue);
    }

    /** get: CacheMiss for an absent key; otherwise notify the algorithm of the access and return the value. */
    method Get(key: K) returns (r: Outcome<V>)
      requires Valid() && (algorithm != null || key !in blocks)
      modifies Repr - {this}
      ensures Valid()
      ensures algorithm == null ==> r == Fail(CacheMiss)
      ensures algorithm != null ==> Step(View(), r) == Shards.Get(old(View()), key)
    {
      if key !in blocks {
        return Fail(CacheMiss);
      }
      algorithm.NotifyAccess(key);
      r := Ok(blocks[key]);
    }

    /** containsKey: whether get succeeds, so a hit also counts as an access. */
    method ContainsKey(key: K) returns (b: bool)
      requires Valid() && (algorithm != null || key !in blocks)
      modifies Repr - {this}
      ensures Valid()
      ensures algorithm == null ==> !b
      ensures algorithm != null ==> Step(View(), b) == Shards.ContainsKey(old(View()), key)
    {
      var g := Get(key);
      b := g.Ok?;
    }

    /** remove: drop the entry if present, notify the algorithm of the deletion, return the old value. */
    method Remove(key: K) returns (r: Option<V>)
      requires Valid() && (algorithm != null || key !in blocks)
      modifies Repr
      ensures Valid() && Repr == old(Repr) && algorithm == old(algorithm)
      ensures algorithm == null ==> r == None && blocks == old(blocks)
      ensures algorithm != null ==> Step(View(), r) == RemoveEntry(old(View()), key)
    {
      r := None;
      if key in blocks {
        r := Some(blocks[key]);
        blocks := blocks - {key};
        algorithm.NotifyDelete(key);
      }
    }

    /** clear: a new, empty map of entries, and the algorithm is reset. */
    method Clear()
      requires Valid() && algorithm != null
      modifies Repr
      ensures Valid() && algorithm == old(algorithm) && fresh(Repr - old(Repr))
      ensures View() == Empty()
    {
      blocks := map[];
      algorithm.Reset();
      Repr := {this} + algorithm.Repr;
    }
  }
}
