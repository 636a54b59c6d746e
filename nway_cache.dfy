/**
 * The N-way set-associative cache: a fixed list of cache sets, each key
 * routed to one of them by its hash, plus hit and miss counters; and the
 * Builder that assembles one.
 */
module NWayCache {
  import opened Optional
  import opened KeyOrder
  import opened Policies
  import opened Shards
  import opened CacheSets
  import opened Routing

  /**
   * Each set is valid, has its own algorithm whose queue tracks exactly the
   * set's keys, and holds at most its capacity; the sets' objects lie in
   * `fp`, and no two sets share an object (in particular no algorithm).
   */
  ghost predicate Owned<K, V>(sets: seq<HashMapCacheSet<K, V>>, fp: set<object>)
    reads sets, fp
  {
    && (forall i :: 0 <= i < |sets| ==> sets[i].Repr <= fp)
    && (forall i :: 0 <= i < |sets| ==>
          sets[i].Valid() && sets[i].algorithm != null && Inv(sets[i].View(), sets[i].blockSize))
    && (forall i, j :: 0 <= i < |sets| && 0 <= j < |sets| && i != j ==> sets[i].Repr !! sets[j].Repr)
  }

  /** A valid set with an algorithm of its own, sharing no object with `fp`, may join owned sets. */
  lemma OwnedAppend<K, V>(sets: seq<HashMapCacheSet<K, V>>, fp: set<object>, s: HashMapCacheSet<K, V>)
    requires Owned(sets, fp)
    requires s.Valid() && s.algorithm != null && Inv(s.View(), s.blockSize) && s.Repr !! fp
    ensures Owned(sets + [s], fp + s.Repr)
  {
    var all := sets + [s];
    forall i, j | 0 <= i < |all| && 0 <= j < |all| && i != j ensures all[i].Repr !! all[j].Repr {
      if i < |sets| && j < |sets| {
        assert all[i] == sets[i] && all[j] == sets[j];
      } else if i < |sets| {
        assert all[i].Repr <= fp;
      } else {
        assert all[j].Repr <= fp;
      }
    }
  }

  /** The number of entries held by the sets, summed in list order as size() does. */
  function TotalEntries<K(==), V>(sets: seq<HashMapCacheSet<K, V>>): (n: nat)
    reads sets
    ensures forall i :: 0 <= i < |sets| ==> |sets[i].blocks| <= n
  {
    if sets == [] then 0
    else
      var front := sets[..|sets| - 1];
      assert forall i :: 0 <= i < |front| ==> front[i] == sets[i];
      TotalEntries(front) + |sets[|sets| - 1].blocks|
  }

  /** One more set adds its entries to the sum. */
  lemma TotalEntriesStep<K, V>(sets: seq<HashMapCacheSet<K, V>>, j: nat)
    requires j < |sets|
    ensures TotalEntries(sets[..j + 1]) == TotalEntries(sets[..j]) + |sets[j].blocks|
  {
    assert sets[..j + 1][..j] == sets[..j];
  }

  /** The sum is bounded by the sets' common capacity. */
  lemma {:induction false} TotalEntriesBound<K, V>(sets: seq<HashMapCacheSet<K, V>>, capacity: int)
    requires forall i :: 0 <= i < |sets| ==> |sets[i].blocks| <= capacity
    ensures TotalEntries(sets) <= capacity * |sets|
  {
    if sets != [] {
      var n := |sets| - 1;
      TotalEntriesBound(sets[..n], capacity);
      assert capacity * |sets| == capacity * n + capacity;
    }
  }

  /** The sum is zero exactly when every set is empty. */
  lemma {:induction false} TotalEntriesZero<K, V>(sets: seq<HashMapCacheSet<K, V>>)
    ensures TotalEntries(sets) == 0 <==> forall i :: 0 <= i < |sets| ==> sets[i].blocks == map[]
  {
    if sets != [] {
      var n := |sets| - 1;
      var front := sets[..n];
      TotalEntriesZero(front);
      assert forall i :: 0 <= i < n ==> front[i] == sets[i];
      if TotalEntries(sets) == 0 {
        assert sets[n].blocks.Keys == {};
      }
    }
  }

  class NWaySetAssociativeCache<K(==), V> {
    const totalSets: int
    const blockSize: int
    var hits: int
    var misses: int
    const sets: seq<HashMapCacheSet<K, V>>
    var hash: K -> int
    var algorithmName: Option<string>
    ghost var Repr: set<object>

    ghost predicate Valid()
      reads this, Repr
    {
      && this in Repr
      && totalSets == |sets| >= 1
      && (forall i :: 0 <= i < |sets| ==> sets[i] in Repr && this !in sets[i].Repr)
      && Owned(sets, Repr - {this})
    }

    /**
     * new NWaySetAssociativeCache(sets, hashFunction), once its argument
     * checks have passed; `fp` holds the objects of the sets.
     */
    constructor (sets: seq<HashMapCacheSet<K, V>>, hash: K -> int, ghost fp: set<object>)
      requires |sets| >= 1
      ensures this.sets == sets && this.hash == hash && Repr == {this} + fp
      ensures totalSets == |sets| && blockSize == sets[0].blockSize
      ensures hits == 0 && misses == 0 && algorithmName == None
      ensures Owned(sets, fp) ==> Valid()
    {
      this.sets := sets;
      this.hash := hash;
      totalSets := |sets|;
      blockSize := sets[0].blockSize;
      hits := 0;
      misses := 0;
      algorithmName := None;
      Repr := {this} + fp;
      new;
      if Owned(sets, fp) {
        forall i | 0 <= i < |sets| ensures sets[i] in Repr {
          assert sets[i] in sets[i].Repr;
        }
      }
    }

    /** indexOf: the position of the set that holds `key`. */
    function IndexOf(key: K): (i: nat)
      reads this
      requires totalSets >= 1
      ensures i < totalSets
    {
      SetIndex(hash(key), totalSets)
    }

    /**
     * put: store in the key's set and return the previous (or evicted)
     * value; a failed eviction is swallowed (onEvictionNotPossible does
     * nothing) and yields None. No other set changes.
     */
    method Put(key: K, value: V) returns (r: Option<V>)
      requires Valid()
      modifies Repr - {this}
      ensures Valid()
      ensures var i := IndexOf(key);
        var step := Shards.Put(sets[i].algorithm.policy, sets[i].blockSize, old(sets[i].View()), key, value);
        && sets[i].View() == step.shard
        && r == (if step.result.Ok? then step.result.value else None)
      ensures forall j :: 0 <= j < |sets| && j != IndexOf(key) ==> sets[j].View() == old(sets[j].View())
    {
      var i := IndexOf(key);
      var o := PutAt(i, key, value);
      r := if o.Ok? then o.value else None;
    }

    /** The put of `sets[i]`, with its outcome before the facade swallows a failed eviction. */
    method PutAt(i: nat, key: K, value: V) returns (o: Outcome<Option<V>>)
      requires Valid() && i < |sets|
      modifies Repr - {this}
      ensures Valid()
      ensures Step(sets[i].View(), o) == Shards.Put(sets[i].algorithm.policy, sets[i].blockSize, old(sets[i].View()), key, value)
      ensures forall j :: 0 <= j < |sets| && j != i ==> sets[j].View() == old(sets[j].View())
    {
      var cs := sets[i];
      ghost var before := cs.View();
      assert Inv(before, cs.blockSize);
      o := cs.Put(key, value);
      assert Inv(cs.View(), cs.blockSize) by {
        PutKeepsInv(cs.algorithm.policy, cs.blockSize, before, key, value);
      }
      KeepOthers(i);
    }

    /**
     * An operation confined to the objects of `sets[i]`, which keeps that
     * set valid and within its capacity and may give it fresh objects, keeps
     * the cache valid and leaves every other set as it was.
     */
    twostate lemma KeepOthers(i: nat)
      requires old(Valid()) && i < |sets|
      requires forall o :: o in old(Repr) && o != this && o !in old(sets[i].Repr) ==> unchanged(o)
      requires Repr == old(Repr) + sets[i].Repr && fresh(sets[i].Repr - old(sets[i].Repr))
      requires sets[i].Valid() && sets[i].algorithm != null && this !in sets[i].Repr
      requires Inv(sets[i].View(), sets[i].blockSize)
      ensures Valid()
      ensures forall j :: 0 <= j < |sets| && j != i ==> sets[j].Repr == old(sets[j].Repr) && sets[j].View() == old(sets[j].View())
    {
      OthersUnchanged(i);
      forall j, k | 0 <= j < |sets| && 0 <= k < |sets| && j != k
        ensures sets[j].Repr !! sets[k].Repr
      {
        assert old(sets[j].Repr) !! old(sets[k].Repr);
      }
      forall j | 0 <= j < |sets|
        ensures sets[j] in Repr && this !in sets[j].Repr && sets[j].Repr <= Repr - {this}
        ensures sets[j].Valid() && sets[j].algorithm != null && Inv(sets[j].View(), sets[j].blockSize)
      {
        if j != i {
          assert old(Inv(sets[j].View(), sets[j].blockSize));
        }
      }
    }

    /** The sets other than `sets[i]` keep their objects, validity and contents. */
    twostate lemma OthersUnchanged(i: nat)
      requires old(Valid()) && i < |sets|
      requires forall o :: o in old(Repr) && o != this && o !in old(sets[i].Repr) ==> unchanged(o)
      ensures forall j :: 0 <= j < |sets| && j != i ==>
        && sets[j].Repr == old(sets[j].Repr) && sets[j].Valid() && sets[j].algorithm != null
        && sets[j].View() == old(sets[j].View())
    {
      forall j | 0 <= j < |sets| && j != i
        ensures sets[j].Repr == old(sets[j].Repr) && sets[j].Valid()
        ensures sets[j].algorithm != null && sets[j].View() == old(sets[j].View())
      {
        assert sets[j] in old(sets[j].Repr);
        assert old(sets[j].Repr) !! old(sets[i].Repr);
      }
    }

    /** get: the value from the key's set and one more hit, or None and one more miss. */
    method Get(key: K) returns (r: Option<V>)
      requires Valid()
      modifies Repr
      ensures Valid() && Repr == old(Repr) && hash == old(hash) && algorithmName == old(algorithmName)
      ensures var i := IndexOf(key);
        var g := Shards.Get(old(sets[i].View()), key);
        && sets[i].View() == g.shard
        && (g.result.Ok? ==> r == Some(g.result.value) && hits == old(hits) + 1 && misses == old(misses))
        && (g.result.Fail? ==> r == None && hits == old(hits) && misses == old(misses) + 1)
      ensures forall j :: 0 <= j < |sets| && j != IndexOf(key) ==> sets[j].View() == old(sets[j].View())
    {
      var i := IndexOf(key);
      var cs := sets[i];
      ghost var before := cs.View();
      assert Inv(before, cs.blockSize);
      var o := cs.Get(key);
      assert Inv(cs.View(), cs.blockSize) by {
        GetMeaning(before, cs.blockSize, key);
      }
      KeepOthers(i);
      if o.Ok? {
        r := Some(o.value);
        OnCacheHit();
      } else {
        r := None;
        OnCacheMiss();
      }
    }

    /** onCacheHit / onHit: count a hit. */
    method OnCacheHit()
      requires Valid()
      modifies this
      ensures Valid()
      ensures hits == old(hits) + 1 && misses == old(misses)
      ensures hash == old(hash) && algorithmName == old(algorithmName) && Repr == old(Repr)
      ensures forall j :: 0 <= j < |sets| ==> sets[j].View() == old(sets[j].View())
    {
      hits := hits + 1;
    }

    /** onCacheMiss / onMiss: count a miss. */
    method OnCacheMiss()
      requires Valid()
      modifies this
      ensures Valid()
      ensures misses == old(misses) + 1 && hits == old(hits)
      ensures hash == old(hash) && algorithmName == old(algorithmName) && Repr == old(Repr)
      ensures forall j :: 0 <= j < |sets| ==> sets[j].View() == old(sets[j].View())
    {
      misses := misses + 1;
    }

    /** containsKey: asks the key's set, which counts a hit there as an access (but not as a cache hit). */
    method ContainsKey(key: K) returns (b: bool)
      requires Valid()
      modifies Repr - {this}
      ensures Valid()
      ensures var i := IndexOf(key);
        && b == (key in old(sets[i].blocks))
        && sets[i].View() == Shards.ContainsKey(old(sets[i].View()), key).shard
      ensures forall j :: 0 <= j < |sets| && j != IndexOf(key) ==> sets[j].View() == old(sets[j].View())
    {
      var i := IndexOf(key);
      var cs := sets[i];
      ghost var before := cs.View();
      assert Inv(before, cs.blockSize);
      b := cs.ContainsKey(key);
      assert Inv(cs.View(), cs.blockSize) && b == (key in before.blocks) by {
        GetMeaning(before, cs.blockSize, key);
      }
      KeepOthers(i);
    }

    /** remove: remove from the key's set and return the old value. */
    method Remove(key: K) returns (r: Option<V>)
      requires Valid()
      modifies Repr - {this}
      ensures Valid()
      ensures var i := IndexOf(key);
        var step := RemoveEntry(old(sets[i].View()), key);
        sets[i].View() == step.shard && r == step.result
      ensures forall j :: 0 <= j < |sets| && j != IndexOf(key) ==> sets[j].View() == old(sets[j].View())
    {
      var i := IndexOf(key);
      var cs := sets[i];
      ghost var before := cs.View();
      assert Inv(before, cs.blockSize);
      r := cs.Remove(key);
      assert Inv(cs.View(), cs.blockSize) by {
        RemoveEntryMeaning(before, cs.blockSize, key);
      }
      KeepOthers(i);
    }

    /**
     * size: the entries of all sets, summed by a loop over the list in an
     * int that wraps around; the true total when it fits in an int.
     */
    method Size() returns (n: int)
      ensures n == WrapInt32(TotalEntries(sets))
      ensures TotalEntries(sets) < 0x8000_0000 ==> n == TotalEntries(sets)
    {
      n := 0;
      for j := 0 to |sets|
        invariant n == WrapInt32(TotalEntries(sets[..j]))
      {
        var size := sets[j].Size();
        assert WrapInt32(n + size) == WrapInt32(TotalEntries(sets[..j + 1])) by {
          TotalEntriesStep(sets, j);
          WrapAdd(TotalEntries(sets[..j]), size);
        }
        n := WrapInt32(n + size);
      }
      assert sets[..|sets|] == sets;
    }

    /**
     * isEmpty: size() == 0. Every set is empty exactly when it holds, as
     * long as the total is below 2^32; a total that is a positive multiple
     * of 2^32 wraps to 0 as well.
     */
    method IsEmpty() returns (b: bool)
      ensures b <==> TotalEntries(sets) % Int32Modulus == 0
      ensures TotalEntries(sets) < Int32Modulus ==> (b <==> forall i :: 0 <= i < |sets| ==> sets[i].blocks == map[])
    {
      var n := Size();
      b := n == 0;
      WrapZero(TotalEntries(sets));
      TotalEntriesZero(sets);
    }

    /** maxSize as written: blockSize * totalSets in 32-bit int arithmetic, which wraps for large configurations. */
    function MaxSize(): (n: int)
      ensures -0x8000_0000 <= n < 0x8000_0000
      ensures 0 <= blockSize * totalSets < 0x8000_0000 ==> n == Capacity()
    {
      WrapInt32(blockSize * totalSets)
    }

    /** The number of entries the cache can hold: blockSize * totalSets, without wrap-around. */
    function Capacity(): (n: int)
      ensures blockSize > 0 && totalSets > 0 ==> n >= blockSize && n >= totalSets
    {
      blockSize * totalSets
    }

    /**
     * When every set has the cache's block size (as the builder makes
     * them), the cache never holds more than its capacity.
     */
    lemma SizeWithinCapacity()
      requires Valid()
      requires forall i :: 0 <= i < |sets| ==> sets[i].blockSize == blockSize
      ensures TotalEntries(sets) <= Capacity()
    {
      forall i | 0 <= i < |sets| ensures |sets[i].blocks| <= blockSize {
        assert Inv(sets[i].View(), sets[i].blockSize);
      }
      TotalEntriesBound(sets, blockSize);
    }

    /** clear: clear every set (which resets its algorithm) and zero both counters. */
    method Clear()
      requires Valid()
      modifies Repr
      ensures Valid() && fresh(Repr - old(Repr))
      ensures hits == 0 && misses == 0 && hash == old(hash) && algorithmName == old(algorithmName)
      ensures forall i :: 0 <= i < |sets| ==> sets[i].View() == Empty()
    {
      ClearSets();
      ResetCounters();
    }

    /** The loop of clear: every set in turn. */
    method ClearSets()
      requires Valid()
      modifies Repr
      ensures Valid() && fresh(Repr - old(Repr))
      ensures hash == old(hash) && algorithmName == old(algorithmName)
      ensures forall i :: 0 <= i < |sets| ==> sets[i].View() == Empty()
    {
      for j := 0 to |sets|
        invariant Valid() && old(Repr) <= Repr && fresh(Repr - old(Repr))
        invariant hash == old(hash) && algorithmName == old(algorithmName)
        invariant forall i :: 0 <= i < j ==> sets[i].View() == Empty()
      {
        ClearSet(j);
      }
    }

    /** One step of clear: clear `sets[j]`, whose new objects join the cache's. */
    method ClearSet(j: nat)
      requires Valid() && j < |sets|
      modifies Repr
      ensures Valid() && old(Repr) <= Repr && fresh(Repr - old(Repr))
      ensures hash == old(hash) && algorithmName == old(algorithmName)
      ensures sets[j].View() == Empty()
      ensures forall i :: 0 <= i < |sets| && i != j ==> sets[i].View() == old(sets[i].View())
    {
      assert 0 <= sets[j].blockSize by {
        assert Inv(sets[j].View(), sets[j].blockSize);
      }
      sets[j].Clear();
      Repr := Repr + sets[j].Repr;
      KeepOthers(j);
    }

    /** The counter reset at the end of clear. */
    method ResetCounters()
      requires Valid()
      modifies this
      ensures Valid() && hits == 0 && misses == 0
      ensures hash == old(hash) && algorithmName == old(algorithmName) && Repr == old(Repr)
      ensures forall j :: 0 <= j < |sets| ==> sets[j].View() == old(sets[j].View())
    {
      hits := 0;
      misses := 0;
    }

    /** getReplacementAlgorithmName: the recorded name, or "UNKNOWN" when none was recorded. */
    function GetReplacementAlgorithmName(): (name: string)
      reads this
      ensures algorithmName.Some? ==> name == algorithmName.value
      ensures name == "UNKNOWN" <==> algorithmName.None? || algorithmName == Some("UNKNOWN")
    {
      if algorithmName.None? then "UNKNOWN" else algorithmName.value
    }

    /** setReplacementAlgorithmName */
    method SetReplacementAlgorithmName(name: string)
      modifies this
      ensures old(Valid()) ==> Valid() && forall j :: 0 <= j < |sets| ==> sets[j].View() == old(sets[j].View())
      ensures algorithmName == Some(name) && GetReplacementAlgorithmName() == name
      ensures hash == old(hash) && hits == old(hits) && misses == old(misses) && Repr == old(Repr)
    {
      algorithmName := Some(name);
    }

    /** setHashFunction: later operations route keys by the new function; entries stay where they are. */
    method SetHashFunction(h: K -> int)
      requires Valid()
      modifies this
      ensures Valid() && hash == h && forall key :: IndexOf(key) == SetIndex(h(key), totalSets)
      ensures algorithmName == old(algorithmName) && hits == old(hits) && misses == old(misses) && Repr == old(Repr)
    {
      hash := h;
    }
  }

  /**
   * The constructor's argument checks: an empty list of sets or a missing
   * hash function is an IllegalArgumentException (None here). Any other
   * list is accepted, sets sharing one algorithm included; the cache is
   * Valid when each set owns its algorithm.
   */
  method Create<K(==), V>(sets: seq<HashMapCacheSet<K, V>>, hash: Option<K -> int>, ghost fp: set<object>)
    returns (r: Option<NWaySetAssociativeCache<K, V>>)
    ensures r.None? <==> |sets| < 1 || hash.None?
    ensures r.Some? ==> fresh(r.value) && r.value.sets == sets && r.value.hash == hash.value
    ensures r.Some? ==> r.value.totalSets == |sets| && r.value.blockSize == sets[0].blockSize
    ensures r.Some? ==> r.value.hits == 0 && r.value.misses == 0 && r.value.algorithmName == None
    ensures r.Some? && Owned(sets, fp) ==> r.value.Valid()
  {
    if |sets| < 1 || hash.None? {
      return None;
    }
    var c := new NWaySetAssociativeCache(sets, hash.value, fp);
    r := Some(c);
  }

  /**
   * Builder: block size 4 and 10 sets by default; the replacement algorithm
   * is an instance, LRU unless given, and the hash function the default one
   * unless given.
   */
  class Builder<K(==), V> {
    var blockSize: int
    var totalSets: int
    var algorithm: ReplacementAlgorithm?<K, V>
    var hash: Option<K -> int>

    /** Both sizes are positive: they start so and the setters refuse anything else. */
    ghost predicate Valid()
      reads this
    {
      blockSize > 0 && totalSets > 0
    }

    constructor ()
      ensures Valid() && blockSize == 4 && totalSets == 10 && algorithm == null && hash == None
    {
      blockSize := 4;
      totalSets := 10;
      algorithm := null;
      hash := None;
    }

    /** setTotalSets: a non-positive count is refused (IllegalArgumentException) and changes nothing. */
    method SetTotalSets(n: int) returns (accepted: bool)
      requires Valid()
      modifies this
      ensures Valid() && accepted == (n > 0)
      ensures totalSets == (if n > 0 then n else old(totalSets))
      ensures blockSize == old(blockSize) && algorithm == old(algorithm) && hash == old(hash)
    {
      if n <= 0 {
        return false;
      }
      totalSets := n;
      accepted := true;
    }

    /** setBlockSize: a non-positive size is refused (IllegalArgumentException) and changes nothing. */
    method SetBlockSize(n: int) returns (accepted: bool)
      requires Valid()
      modifies this
      ensures Valid() && accepted == (n > 0)
      ensures blockSize == (if n > 0 then n else old(blockSize))
      ensures totalSets == old(totalSets) && algorithm == old(algorithm) && hash == old(hash)
    {
      if n <= 0 {
        return false;
      }
      blockSize := n;
      accepted := true;
    }

    /** setReplacementAlgorithm: keeps the caller's instance; null is replaced by a new LRU at build. */
    method SetReplacementAlgorithm(a: ReplacementAlgorithm?<K, V>)
      modifies this
      ensures algorithm == a && blockSize == old(blockSize) && totalSets == old(totalSets) && hash == old(hash)
    {
      algorithm := a;
    }

    /** setHashFunction: None stands for null, which build replaces by the default hash function. */
    method SetHashFunction(h: Option<K -> int>)
      modifies this
      ensures hash == h && blockSize == old(blockSize) && totalSets == old(totalSets) && algorithm == old(algorithm)
    {
      hash := h;
    }

    /**
     * The defaults build fills in: a new LeastRecentlyUsed when no algorithm
     * is held (it stays held for later builds), and `defaultHash` for the
     * null-safe hash function.
     */
    method FillDefaults(defaultHash: K -> int)
      modifies this
      ensures old(algorithm) != null ==> algorithm == old(algorithm)
      ensures old(algorithm) == null ==>
        && fresh(algorithm) && algorithm.Valid() && fresh(algorithm.Repr)
        && algorithm.policy == LeastRecentlyUsed && algorithm.Order() == []
      ensures hash == (if old(hash).None? then Some(defaultHash) else old(hash))
      ensures blockSize == old(blockSize) && totalSets == old(totalSets)
    {
      if algorithm == null {
        algorithm := new ReplacementAlgorithm<K, V>(LeastRecentlyUsed);
      }
      if hash.None? {
        hash := Some(defaultHash);
      }
    }

    /**
     * build: `totalSets` empty sets of `blockSize` entries, each with a new
     * algorithm of the held algorithm's kind, and a cache named after that kind.
     */
    method Build(defaultHash: K -> int) returns (cache: NWaySetAssociativeCache<K, V>)
      requires Valid()
      modifies this
      ensures Valid() && blockSize == old(blockSize) && totalSets == old(totalSets)
      ensures old(algorithm) != null ==> algorithm == old(algorithm)
      ensures old(algorithm) == null ==> fresh(algorithm) && algorithm.policy == LeastRecentlyUsed
      ensures hash == (if old(hash).None? then Some(defaultHash) else old(hash))
      ensures algorithm != null && fresh(cache) && cache.Valid() && fresh(cache.Repr)
      ensures cache.totalSets == totalSets && cache.blockSize == blockSize && cache.hash == hash.value
      ensures cache.hits == 0 && cache.misses == 0
      ensures cache.GetReplacementAlgorithmName() == Name(algorithm.policy)
      ensures Blank(cache.sets, cache.Repr - {cache}, blockSize, algorithm.policy)
    {
      FillDefaults(defaultHash);
      cache := NewCache(totalSets, blockSize, algorithm.policy, hash.value);
    }

    /**
     * build as written: every set gets the one algorithm instance the
     * builder holds (the same instance again on every later build), and the
     * name is recorded on a cache that is then discarded, so the returned
     * cache has none.
     */
    method BuildAsWritten(defaultHash: K -> int) returns (cache: NWaySetAssociativeCache<K, V>)
      requires Valid() && (algorithm != null ==> algorithm.Valid())
      modifies this
      ensures Valid() && blockSize == old(blockSize) && totalSets == old(totalSets)
      ensures old(algorithm) != null ==> algorithm == old(algorithm)
      ensures old(algorithm) == null ==>
        fresh(algorithm) && algorithm.policy == LeastRecentlyUsed && algorithm.Order() == [] && fresh(algorithm.Repr)
      ensures hash == (if old(hash).None? then Some(defaultHash) else old(hash))
      ensures algorithm != null && algorithm.Valid()
      ensures fresh(cache) && |cache.sets| == cache.totalSets == totalSets
      ensures cache.blockSize == blockSize && cache.hash == hash.value
      ensures cache.hits == 0 && cache.misses == 0 && cache.GetReplacementAlgorithmName() == "UNKNOWN"
      ensures Sharing(cache.sets, algorithm, blockSize)
    {
      FillDefaults(defaultHash);
      var sets := MakeSetsSharing(totalSets, blockSize, algorithm);
      ghost var fp := algorithm.Repr + set s | s in sets;
      var _ := NameDiscarded(sets, hash.value, Name(algorithm.policy), fp);
      cache := new NWaySetAssociativeCache(sets, hash.value, fp);
    }
  }

  /**
   * Two caches built one after the other by the same builder, as written:
   * their sets hold the very same algorithm instance.
   */
  method RebuildShares<K(==), V>(b: Builder<K, V>, defaultHash: K -> int)
    returns (first: NWaySetAssociativeCache<K, V>, second: NWaySetAssociativeCache<K, V>)
    requires b.Valid() && (b.algorithm != null ==> b.algorithm.Valid())
    modifies b
    ensures first != second && |first.sets| >= 1 && |second.sets| >= 1
    ensures first.sets[0].algorithm == second.sets[0].algorithm == b.algorithm
  {
    first := b.BuildAsWritten(defaultHash);
    second := b.BuildAsWritten(defaultHash);
  }

  /** Owned sets, all empty, of the given capacity and policy: what build's loop produces. */
  ghost predicate Blank<K, V>(sets: seq<HashMapCacheSet<K, V>>, fp: set<object>, blockSize: int, p: Policy)
    reads sets, fp
  {
    && Owned(sets, fp)
    && forall i :: 0 <= i < |sets| ==>
         sets[i].blockSize == blockSize && sets[i].View() == Empty() && sets[i].algorithm.policy == p
  }

  /** A new empty set with its own algorithm extends blank sets. */
  lemma BlankAppend<K, V>(sets: seq<HashMapCacheSet<K, V>>, fp: set<object>, blockSize: int, p: Policy, s: HashMapCacheSet<K, V>)
    requires Blank(sets, fp, blockSize, p)
    requires s.Valid() && s.algorithm != null && s.Repr !! fp
    requires s.blockSize == blockSize >= 0 && s.View() == Empty() && s.algorithm.policy == p
    ensures Blank(sets + [s], fp + s.Repr, blockSize, p)
  {
    OwnedAppend(sets, fp, s);
    var all := sets + [s];
    forall i | 0 <= i < |all|
      ensures all[i].blockSize == blockSize && all[i].View() == Empty() && all[i].algorithm.policy == p
    {
      if i < |sets| {
        assert all[i] == sets[i];
      }
    }
  }

  /** The body of build's loop: a new set with a new algorithm attached. */
  method NewSet<K(==), V>(blockSize: int, p: Policy) returns (s: HashMapCacheSet<K, V>)
    ensures fresh(s.Repr) && s.Valid() && s.algorithm != null
    ensures s.blockSize == blockSize && s.View() == Empty() && s.algorithm.policy == p
  {
    s := new HashMapCacheSet<K, V>(blockSize);
    var a := new ReplacementAlgorithm<K, V>(p);
    s.SetReplacementAlgorithm(a);
  }

  /** The corrected body of build: blank sets with their own algorithms, and the cache named after the policy. */
  method NewCache<K(==), V>(count: int, blockSize: int, p: Policy, hash: K -> int) returns (cache: NWaySetAssociativeCache<K, V>)
    requires count > 0 && blockSize > 0
    ensures fresh(cache) && cache.Valid() && fresh(cache.Repr)
    ensures cache.totalSets == count && cache.blockSize == blockSize && cache.hash == hash
    ensures cache.hits == 0 && cache.misses == 0
    ensures cache.GetReplacementAlgorithmName() == Name(p)
    ensures Blank(cache.sets, cache.Repr - {cache}, blockSize, p)
  {
    var sets, fp := MakeSets(count, blockSize, p);
    cache := new NWaySetAssociativeCache(sets, hash, fp);
    assert cache.Repr - {cache} == fp;
    cache.SetReplacementAlgorithmName(Name(p));
  }

  /** The loop of build: `count` new sets, each with a new algorithm of the given policy. */
  method MakeSets<K(==), V>(count: int, blockSize: int, p: Policy)
    returns (sets: seq<HashMapCacheSet<K, V>>, ghost fp: set<object>)
    requires count > 0 && blockSize > 0
    ensures |sets| == count && Blank(sets, fp, blockSize, p) && fresh(fp)
  {
    sets := [];
    fp := {};
    for n := 0 to count
      invariant |sets| == n && Blank(sets, fp, blockSize, p) && fresh(fp)
    {
      var s := NewSet<K, V>(blockSize, p);
      BlankAppend(sets, fp, blockSize, p, s);
      sets := sets + [s];
      fp := fp + s.Repr;
    }
  }

  /**
   * The last lines of build as written: the name goes to a cache that is
   * created here and that build then drops.
   */
  method NameDiscarded<K(==), V>(sets: seq<HashMapCacheSet<K, V>>, hash: K -> int, name: string, ghost fp: set<object>)
    returns (named: NWaySetAssociativeCache<K, V>)
    requires |sets| >= 1
    ensures fresh(named) && named.sets == sets && named.hash == hash
    ensures named.GetReplacementAlgorithmName() == name
  {
    named := new NWaySetAssociativeCache(sets, hash, fp);
    named.SetReplacementAlgorithmName(name);
  }

  /** Distinct, valid, empty sets of the given capacity that all have the algorithm `a`. */
  ghost predicate Sharing<K, V>(sets: seq<HashMapCacheSet<K, V>>, a: ReplacementAlgorithm<K, V>, blockSize: int)
    reads sets, a, a.Repr
  {
    && (forall i, j :: 0 <= i < j < |sets| ==> sets[i] != sets[j])
    && forall i :: 0 <= i < |sets| ==>
         && sets[i].Repr == {sets[i]} + a.Repr && sets[i].Valid()
         && sets[i].blockSize == blockSize && sets[i].blocks == map[] && sets[i].algorithm == a
  }

  /** The loop of build as written: `count` new sets that all get the same algorithm. */
  method MakeSetsSharing<K(==), V>(count: int, blockSize: int, a: ReplacementAlgorithm<K, V>)
    returns (sets: seq<HashMapCacheSet<K, V>>)
    requires count > 0 && a.Valid()
    ensures |sets| == count
    ensures Sharing(sets, a, blockSize) && forall i :: 0 <= i < |sets| ==> fresh(sets[i])
  {
    sets := [];
    for n := 0 to count
      invariant |sets| == n
      invariant Sharing(sets, a, blockSize) && forall i :: 0 <= i < |sets| ==> fresh(sets[i])
    {
      var s := new HashMapCacheSet<K, V>(blockSize);
      s.SetReplacementAlgorithm(a);
      sets := sets + [s];
    }
  }

  /**
   * maxSize as written for a cache of 65536 sets of 65536 entries (both
   * accepted by the builder): the int product 2^32 wraps to 0.
   */
  lemma MaxSizeOverflow<K, V>(cache: NWaySetAssociativeCache<K, V>)
    requires cache.blockSize == 65536 && cache.totalSets == 65536
    ensures cache.MaxSize() == 0 && cache.Capacity() == 0x1_0000_0000
  {
    assert cache.blockSize * cache.totalSets == 0x1_0000_0000;
  }

  /** The values behind SharedAlgorithmOverflow: the shared queue, step by step. */
  lemma SharedQueueTrace(p: Policy, empty: Shard<int, int>)
    requires p == LeastRecentlyUsed && empty == Shard(map[], [])
    ensures Shards.Put(p, 1, empty, 2, 2).shard.order == [2]
    ensures Shards.Put(p, 1, Shard(map[], [2]), 1, 1).shard == Shard(map[1 := 1], [2, 1])
    ensures |Shards.Put(p, 1, Shard(map[1 := 1], [2, 1]), 3, 3).shard.blocks| == 2
  {
    assert Touch(empty.order, 2) == [2];
    assert Touch([2], 1) == [2, 1];
    var e := Shards.Evict(p, Shard(map[1 := 1], [2, 1]));
    assert Victim(p, [2, 1]) == 2 && Remaining(p, [2, 1]) == [1];
    assert e.shard.blocks == map[1 := 1] && e.result.Ok?;
    assert map[1 := 1][3 := 3].Keys == {1, 3};
  }

  /**
   * What build as written lets happen: two sets of capacity 1 share one LRU
   * algorithm. A put into the second set queues its key in the shared
   * queue; a put into the first set queues another; the next put into the
   * full first set evicts the head of the shared queue, which is the second
   * set's key, so nothing leaves the first set and it ends up holding two
   * entries.
   */
  method SharedAlgorithmOverflow() returns (size: int, capacity: int)
    ensures size == 2 && capacity == 1
  {
    var first := SharedAfterOtherPut();
    SharedQueueTrace(LeastRecentlyUsed, Shard(map[], []));
    var _ := first.Put(1, 1);
    var _ := first.Put(3, 3);
    size := first.Size();
    capacity := first.MaxSize();
  }

  /**
   * The start of SharedAlgorithmOverflow: two sets of capacity 1 share one
   * LRU algorithm, and a put into the second queues key 2 in the shared
   * queue while the first set stays empty.
   */
  method SharedAfterOtherPut() returns (first: HashMapCacheSet<int, int>)
    ensures first.Valid() && first.algorithm != null && first.algorithm.policy == LeastRecentlyUsed
    ensures first.blockSize == 1 && first.View() == Shard(map[], [2])
    ensures fresh(first.Repr)
  {
    var second;
    first, second := TwoSharingSets();
    PutFirstKey(second);
  }

  /** put(2, 2) into an empty LRU set of capacity 1: key 2 enters the algorithm's queue. */
  method PutFirstKey(s: HashMapCacheSet<int, int>)
    requires s.Valid() && s.algorithm != null && s.algorithm.policy == LeastRecentlyUsed
    requires s.blockSize == 1 && s.View() == Empty()
    modifies s.Repr
    ensures s.Valid() && s.algorithm == old(s.algorithm) && s.Repr == old(s.Repr)
    ensures s.algorithm.Repr == old(s.algorithm.Repr) && s.algorithm.Order() == [2]
  {
    ghost var before := s.View();
    var _ := s.Put(2, 2);
    assert s.algorithm.Order() == [2] by {
      SharedQueueTrace(s.algorithm.policy, before);
    }
  }

  /** The builder's loop as written, for two sets of capacity 1 and a new LRU algorithm. */
  method TwoSharingSets() returns (first: HashMapCacheSet<int, int>, second: HashMapCacheSet<int, int>)
    ensures first.Valid() && first.algorithm != null && first.algorithm.policy == LeastRecentlyUsed
    ensures second.Valid() && second.algorithm == first.algorithm && first != second
    ensures first.blockSize == 1 && second.blockSize == 1
    ensures first.View() == Empty() && second.View() == Empty()
    ensures first.Repr == {first} + first.algorithm.Repr && second.Repr == {second} + first.algorithm.Repr
    ensures fresh(first.Repr) && fresh(second.Repr)
  {
    var a := new ReplacementAlgorithm<int, int>(LeastRecentlyUsed);
    var sets := MakeSetsSharing(2, 1, a);
    first, second := sets[0], sets[1];
  }
}
