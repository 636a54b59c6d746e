/**
 * The replacement scenarios of the integration tests, on a single cache set
 * of capacity 5 whose keys are their own values (the tests put `key` with
 * value `key`; here keys are numbers).
 */
module Scenarios {
  import opened Optional
  import opened KeyOrder
  import opened Policies
  import opened Shards

  /** Put each key in turn, with itself as its value. */
  function PutAll<K(==)>(p: Policy, capacity: int, s: Shard<K, K>, keys: seq<K>): Shard<K, K>
    decreases |keys|
  {
    if keys == [] then s else PutAll(p, capacity, Put(p, capacity, s, keys[0], keys[0]).shard, keys[1..])
  }

  /** A new key put into a tracked set with room is appended at the most recent end and null is returned. */
  lemma PutNewWithRoom<K, V>(p: Policy, capacity: int, s: Shard<K, V>, k: K, v: V)
    requires Tracks(s) && k !in s.blocks && |s.blocks| < capacity
    ensures Put(p, capacity, s, k, v) == Step(Shard(s.blocks[k := v], s.order + [k]), Ok(None))
  {
    WithoutAbsent(s.order, k);
  }

  /** A new key put into a full tracked set replaces the policy's victim and is appended at the most recent end. */
  lemma PutNewWhenFull<K, V>(p: Policy, capacity: int, s: Shard<K, V>, k: K, v: V)
    requires Inv(s, capacity) && k !in s.blocks && |s.blocks| == capacity && s.order != []
    ensures var x := Victim(p, s.order);
      Put(p, capacity, s, k, v)
        == Step(Shard((s.blocks - {x})[k := v], Remaining(p, s.order) + [k]), Ok(Some(s.blocks[x])))
  {
    EvictIsRemoveVictim(p, s);
    EvictMeaning(p, s, capacity);
    WithoutAbsent(Remaining(p, s.order), k);
  }

  /** Each key mapped to itself. */
  function SelfMap<K>(keys: seq<K>): map<K, K> {
    map x | x in keys :: x
  }

  /** Adding a non-empty sequence of self-mapped keys is adding its head, then its tail. */
  lemma SelfMapCons<K>(m: map<K, K>, keys: seq<K>)
    requires keys != []
    ensures m + SelfMap(keys) == m[keys[0] := keys[0]] + SelfMap(keys[1..])
  {
    assert keys == [keys[0]] + keys[1..];
  }

  /** Appending a non-empty sequence is appending its head, then its tail. */
  lemma ConsAssociates<K>(a: seq<K>, keys: seq<K>)
    requires keys != []
    ensures a + keys == (a + [keys[0]]) + keys[1..]
  {
    assert keys == [keys[0]] + keys[1..];
  }

  /**
   * Putting distinct new keys into a tracked set that has room for all of them
   * appends them to the queue in the order they were put, and evicts nothing.
   */
  lemma {:induction false} PutAllFresh<K>(p: Policy, capacity: int, s: Shard<K, K>, keys: seq<K>)
    requires Tracks(s) && Distinct(keys) && |s.blocks| + |keys| <= capacity
    requires forall i :: 0 <= i < |keys| ==> keys[i] !in s.blocks
    ensures PutAll(p, capacity, s, keys).order == s.order + keys
    ensures PutAll(p, capacity, s, keys).blocks == s.blocks + SelfMap(keys)
    decreases |keys|
  {
    if keys != [] {
      var k := keys[0];
      var s' := Shard(s.blocks[k := k], s.order + [k]);
      assert Tracks(s') by {
        StoreKeepsTracks(s, k, k);
        WithoutAbsent(s.order, k);
      }
      var rest := keys[1..];
      assert Distinct(rest) by {
        forall a, b | 0 <= a < b < |rest| ensures rest[a] != rest[b] {
          assert rest[a] == keys[a + 1] && rest[b] == keys[b + 1];
        }
      }
      assert forall i :: 0 <= i < |rest| ==> rest[i] !in s'.blocks by {
        forall i | 0 <= i < |rest| ensures rest[i] !in s'.blocks {
          assert rest[i] == keys[i + 1];
        }
      }
      assert |s'.blocks| + |rest| <= capacity by {
        assert k !in s.blocks;
        assert |s'.blocks| == |s.blocks| + 1;
      }
      PutAllFresh(p, capacity, s', rest);
      assert PutAll(p, capacity, s, keys) == PutAll(p, capacity, s', keys[1..]) by {
        PutNewWithRoom(p, capacity, s, k, k);
      }
      ConsAssociates(s.order, keys);
      SelfMapCons(s.blocks, keys);
    }
  }

  /** A set of five whose every key is mapped to itself. */
  ghost predicate FullOfSelf(s: Shard<int, int>) {
    Inv(s, 5) && |s.blocks| == 5 && forall x :: x in s.blocks ==> s.blocks[x] == x
  }

  /** A put of a new key into a full set of five evicts the victim and queues the key last. */
  lemma PutIntoFullStep(p: Policy, s: Shard<int, int>, k: int)
    requires FullOfSelf(s) && k !in s.blocks
    ensures s.order != [] && Victim(p, s.order) in s.blocks
    ensures var x := Victim(p, s.order);
      Put(p, 5, s, k, k) == Step(Shard((s.blocks - {x})[k := k], Remaining(p, s.order) + [k]), Ok(Some(x)))
  {
    assert s.blocks != map[];
    OrderNonEmpty(s);
    EvictIsRemoveVictim(p, s);
    PutNewWhenFull(p, 5, s, k, k);
  }

  /** One put of a new key into a full set of five: the victim is returned and the key queued last. */
  lemma PutIntoFull(p: Policy, s: Shard<int, int>, k: int)
    requires FullOfSelf(s) && k !in s.blocks
    ensures var r := Put(p, 5, s, k, k);
      && r.result == Ok(Some(Victim(p, s.order)))
      && r.shard.order == Remaining(p, s.order) + [k]
      && r.shard.blocks.Keys == s.blocks.Keys - {Victim(p, s.order)} + {k}
      && FullOfSelf(r.shard)
  {
    PutIntoFullStep(p, s, k);
    var x := Victim(p, s.order);
    var t := Put(p, 5, s, k, k).shard;
    assert Inv(t, 5) by {
      PutKeepsInv(p, 5, s, k, k);
    }
    assert |t.blocks| == 5 by {
      assert |s.blocks - {x}| == 4;
    }
  }

  /** The first five numbers, each mapped to itself. */
  lemma SelfMapFirstFive()
    ensures SelfMap([0, 1, 2, 3, 4]) == map[0 := 0, 1 := 1, 2 := 2, 3 := 3, 4 := 4]
  {
    var keys := [0, 1, 2, 3, 4];
    forall x ensures x in SelfMap(keys) <==> x in map[0 := 0, 1 := 1, 2 := 2, 3 := 3, 4 := 4] {
      assert x in keys <==> 0 <= x < 5;
    }
  }

  /** The first five numbers mapped to themselves and queued in order form a full, tracked set of five. */
  lemma FirstFiveFull()
    ensures FullOfSelf(Shard(map[0 := 0, 1 := 1, 2 := 2, 3 := 3, 4 := 4], [0, 1, 2, 3, 4]))
    ensures forall x :: x in map[0 := 0, 1 := 1, 2 := 2, 3 := 3, 4 := 4] ==> 0 <= x < 5
  {
    var keys := [0, 1, 2, 3, 4];
    var m := map[0 := 0, 1 := 1, 2 := 2, 3 := 3, 4 := 4];
    assert Distinct(keys);
    assert forall x :: x in m ==> x in keys && m[x] == x;
  }

  /** Adding entries to no entries gives those entries. */
  lemma NoEntriesPlus<K, V>(m: map<K, V>)
    ensures Empty<K, V>().blocks + m == m
  {
  }

  /** Keys 0..4 put into an empty set of five, each with itself as its value, are queued in that order. */
  lemma FillFive(p: Policy)
    ensures PutAll(p, 5, Empty(), [0, 1, 2, 3, 4])
      == Shard(map[0 := 0, 1 := 1, 2 := 2, 3 := 3, 4 := 4], [0, 1, 2, 3, 4])
  {
    var keys := [0, 1, 2, 3, 4];
    PutAllFresh(p, 5, Empty(), keys);
    SelfMapFirstFive();
    NoEntriesPlus(SelfMap(keys));
  }

  /** A read of a present key keeps a full set of five full, with the same entries. */
  lemma GetKeepsFull(s: Shard<int, int>, k: int)
    requires FullOfSelf(s) && k in s.blocks
    ensures Get(s, k) == Step(Shard(s.blocks, Touch(s.order, k)), Ok(k))
    ensures FullOfSelf(Get(s, k).shard)
  {
    GetMeaning(s, 5, k);
  }

  /** Touching the first of five keys moves it to the end. */
  lemma TouchFirstOfFive()
    ensures Touch([0, 1, 2, 3, 4], 0) == [1, 2, 3, 4, 0]
  {
    TouchAt([0, 1, 2, 3, 4], 0);
  }

  /** Touching the last of five keys leaves the order as it is. */
  lemma TouchLastOfFive()
    ensures Touch([0, 1, 2, 3, 4], 4) == [0, 1, 2, 3, 4]
  {
    TouchAt([0, 1, 2, 3, 4], 4);
  }

  /**
   * Least recently used: fill a set of five with keys 0..4 and read key 0; the
   * next new key evicts key 1, the least recently used, and not the key just read.
   */
  lemma LeastRecentlyUsedScenario(p: Policy)
    requires p == LeastRecentlyUsed
    ensures var read := Get(PutAll(p, 5, Empty(), [0, 1, 2, 3, 4]), 0);
      var put := Put(p, 5, read.shard, 5, 5);
      && read.result == Ok(0)
      && put.result == Ok(Some(1))
      && 0 in put.shard.blocks && 1 !in put.shard.blocks
  {
    var m := map[0 := 0, 1 := 1, 2 := 2, 3 := 3, 4 := 4];
    FillFive(p);
    FirstFiveFull();
    GetKeepsFull(Shard(m, [0, 1, 2, 3, 4]), 0);
    TouchFirstOfFive();
    PutIntoFull(p, Shard(m, [1, 2, 3, 4, 0]), 5);
  }

  /** Most recently used: a new key put into a full set is the victim of the next new key. */
  lemma MostRecentlyUsedEvictsPrevious(p: Policy, s: Shard<int, int>, k: int, k': int)
    requires p == MostRecentlyUsed
    requires FullOfSelf(s) && k !in s.blocks && k' !in s.blocks && k' != k
    ensures Put(p, 5, Put(p, 5, s, k, k).shard, k', k').result == Ok(Some(k))
  {
    PutIntoFull(p, s, k);
    var t := Put(p, 5, s, k, k).shard;
    PutIntoFull(p, t, k');
  }

  /**
   * Most recently used: fill a set of five with keys 0..4 and read key 4; the
   * next new key evicts key 4, and the new key after that evicts the one put
   * just before it.
   */
  lemma MostRecentlyUsedScenario(p: Policy)
    requires p == MostRecentlyUsed
    ensures var read := Get(PutAll(p, 5, Empty(), [0, 1, 2, 3, 4]), 4);
      var put5 := Put(p, 5, read.shard, 5, 5);
      var put6 := Put(p, 5, put5.shard, 6, 6);
      && read.result == Ok(4)
      && put5.result == Ok(Some(4))
      && put6.result == Ok(Some(5))
  {
    var m := map[0 := 0, 1 := 1, 2 := 2, 3 := 3, 4 := 4];
    FillFive(p);
    FirstFiveFull();
    var full := Shard(m, [0, 1, 2, 3, 4]);
    GetKeepsFull(full, 4);
    TouchLastOfFive();
    PutIntoFull(p, full, 5);
    MostRecentlyUsedEvictsPrevious(p, full, 5, 6);
  }
}
