# N-way set-associative cache, modelled in Dafny

This project models the core of an N-way set-associative key/value cache.
The cache keeps a fixed list of cache sets. Each key is routed to one set by
`Math.abs(hash(key) % totalSets)`. A set (`HashMapCacheSet`) whose
replacement algorithm is its own holds at most `blockSize` entries. When a
full set receives a new key, it asks its replacement algorithm to evict an
entry. The algorithm is
`LeastRecentlyUsed` or `MostRecentlyUsed`. Both keep a recency queue
(`HashQueue`: a circular doubly linked list with a sentinel node, plus a
key-to-node map). LRU evicts the head of that queue and MRU its tail. The
facade (`NWaySetAssociativeCache`) swallows a failed eviction, turns a miss
into `null`, and counts hits and misses. A `Builder` assembles the cache.

The model has these modules:

- `Optional`: Java's `null`, written `None`.
- `KeyOrder`: orders of distinct keys, and `Without`, which drops a key.
- `Policies`: the two policies on values:
  - how an access reorders the queue;
  - which key evict pops;
  - the access history that justifies the choice (`ReflectsHistory`, `LastAccess`).
- `Shards`: one cache set and its algorithm's queue as a value (`Shard`).
  - It has one function per set operation.
  - Its lemmas prove what the `CacheSet` and `ReplacementAlgorithm` interfaces promise.
- `HashQueues`: the queue itself, as a class over an index arena.
  - Node 0 is the sentinel.
  - The `next`/`prev` sequences are the links.
  - `lookup` is the key-to-node map.
  - The ghost fields `Keys`/`Nodes` are the order the links encode.
- `CacheSets`: the classes `ReplacementAlgorithm` (LRU and MRU in one class, told apart by a `policy` constant) and `HashMapCacheSet`. Every method is proved to do exactly what the matching `Shards` function does.
- `Routing`: Java's truncated `%`, `Math.abs`, the set index, and 32-bit wrap-around.
- `NWayCache`: the facade and its Builder.
  - The facade keeps a list of owned sets. Each set has an algorithm of its own and shares no object with any other set.
  - Every operation is proved to touch only the key's set.
- `Scenarios`: the replacement scenarios of the integration tests, on a single set of five entries.

A Java exception becomes a value: `Outcome.Fail(EvictionNotPossible)` or
`Outcome.Fail(CacheMiss)`; `None` where the constructor would throw
`IllegalArgumentException`; and `accepted == false`, with nothing changed,
where `setTotalSets` or `setBlockSize` would throw it. The hash function is a
parameter `K -> int`, and the null-safe default is passed to `Build`.

## Model

Source paths are relative to the repository root.

| member | source | states |
|---|---|---|
| KeyOrder.Without | src/main/java/cache/replacement/HashQueue.java:37-39 | The queue after removing a key. It is no longer than before, and it contains only old keys other than the removed one. |
| KeyOrder.WithoutKeeps | src/main/java/cache/replacement/HashQueue.java:60-67 | Removing a key keeps every other key. |
| KeyOrder.WithoutAbsent | src/main/java/cache/replacement/HashQueue.java:60-61 | Removing an absent key changes nothing. |
| KeyOrder.WithoutAt | src/main/java/cache/replacement/HashQueue.java:60-67 | In a distinct order, removing the key at position i cuts out exactly that position. The other keys keep their relative order. |
| KeyOrder.WithoutDistinct | src/main/java/cache/replacement/HashQueue.java:60-67 | Removal keeps the order free of duplicates. |
| KeyOrder.AppendDistinct | src/main/java/cache/replacement/HashQueue.java:51-58 | Appending a key that is absent keeps the order free of duplicates. |
| HashQueues.Walk | src/main/java/cache/replacement/HashQueue.java:69-97 | The nodes met by following nextNode links, at most the given number of them. Its meaning is stated by WalkFrom and Traversal. |
| HashQueues.WalkFrom | src/main/java/cache/replacement/HashQueue.java:69-97 | From the j-th listed node, the next links visit exactly the rest of the list. |
| HashQueues.Traversal | src/main/java/cache/replacement/HashQueue.java:18-23 | The nodes reachable from the sentinel are exactly the listed nodes, in order. The last one links back to the sentinel. |
| HashQueues.LinkLast | src/main/java/cache/replacement/HashQueue.java:51-58 | pushNode's four link updates put a new node between the last node and the sentinel. The circle stays well formed. |
| HashQueues.LinkLastNext | src/main/java/cache/replacement/HashQueue.java:54-57 | After pushNode, every listed node's nextNode is its successor in the extended list. |
| HashQueues.LinkLastPrev | src/main/java/cache/replacement/HashQueue.java:54-57 | After pushNode, every listed node's previousNode is its predecessor in the extended list. |
| HashQueues.CutShifts | src/main/java/cache/replacement/HashQueue.java:60-67 | Cutting out one element of a distinct list shifts the later ones forward, keeps the list distinct, and drops that element. |
| HashQueues.UnlinkNext | src/main/java/cache/replacement/HashQueue.java:62-65 | After removeNode, the successor links of the remaining nodes are right. |
| HashQueues.UnlinkPrev | src/main/java/cache/replacement/HashQueue.java:62-64 | After removeNode, the predecessor links of the remaining nodes are right. |
| HashQueues.Unlink | src/main/java/cache/replacement/HashQueue.java:60-67 | Linking a node's neighbours to each other cuts that node out of the circle. The other nodes stay in order. |
| HashQueues.LabelLast | src/main/java/cache/replacement/HashQueue.java:41-45 | The new node carries the pushed key as its id. |
| HashQueues.KeysDistinct | src/main/java/cache/replacement/HashQueue.java:11 | Keys that the map sends to distinct nodes are themselves distinct, so no key is queued twice. |
| HashQueues.IndexLast | src/main/java/cache/replacement/HashQueue.java:52 | map.put of a new key extends the key-to-node index by the new node. |
| HashQueues.LabelCut | src/main/java/cache/replacement/HashQueue.java:60-67 | Removing a node keeps the ids of the others. |
| HashQueues.IndexCut | src/main/java/cache/replacement/HashQueue.java:37-39 | map.remove drops exactly the removed key from the index. |
| HashQueues.PushKeeps | src/main/java/cache/replacement/HashQueue.java:41-58 | push of an absent key keeps the whole queue invariant, with the key appended. |
| HashQueues.RemoveKeeps | src/main/java/cache/replacement/HashQueue.java:37-39 | remove of a queued key keeps the queue invariant. The keys become Without(keys, key). |
| HashQueues.HashQueue.constructor | src/main/java/cache/replacement/HashQueue.java:18-23 | The sentinel links to itself, the map is empty, and no key is queued. |
| HashQueues.HashQueue.IsEmpty | src/main/java/cache/replacement/HashQueue.java:47-49 | The sentinel is its own successor exactly when no key is queued. |
| HashQueues.HashQueue.Push | src/main/java/cache/replacement/HashQueue.java:41-58 | An absent key is appended at the tail: Keys == old(Keys) + [key]. The invariant is kept. |
| HashQueues.HashQueue.Remove | src/main/java/cache/replacement/HashQueue.java:37-39 | The key leaves the queue and the others keep their order. An absent key leaves the links and the map untouched. |
| HashQueues.HashQueue.RemoveNode | src/main/java/cache/replacement/HashQueue.java:60-67 | Unlinking the node the map held for the key removes exactly that key from the order. |
| HashQueues.HashQueue.PopFirst | src/main/java/cache/replacement/HashQueue.java:25-29 | On a non-empty queue it returns the head key and leaves the tail in order. On an empty queue it returns the sentinel's null id and changes nothing. |
| HashQueues.HashQueue.PopLast | src/main/java/cache/replacement/HashQueue.java:31-35 | On a non-empty queue it returns the last key and leaves the prefix in order. On an empty queue it returns null and changes nothing. |
| Policies.Name | src/main/java/cache/NWaySetAssociativeCache.java:264 | The simple class name of either algorithm is non-empty and never the "UNKNOWN" placeholder. |
| Policies.Touch | src/main/java/cache/replacement/LeastRecentlyUsed.java:30-33 | After notifyAccess(k), k is the last (most recent) key, and the queue grew by at most one. |
| Policies.Victim | src/main/java/cache/replacement/LeastRecentlyUsed.java:20 | The key evict pops is in the queue. |
| Policies.Remaining | src/main/java/cache/replacement/MostRecentlyUsed.java:20 | The pop shortens the queue by exactly one. |
| Policies.TouchShape | src/main/java/cache/replacement/LeastRecentlyUsed.java:30-33 | notifyAccess keeps the queue distinct, puts the key at the tail, and adds no other key. |
| Policies.TouchAt | src/main/java/cache/replacement/MostRecentlyUsed.java:30-33 | notifyAccess of the key at position i cuts it out there and appends it. The other keys keep their order. |
| Policies.RemainingIsWithout | src/main/java/cache/replacement/LeastRecentlyUsed.java:20-21 | popFirst (LRU) or popLast (MRU) is the same as removing the victim by key. The queue shrinks by one. |
| Policies.LastAccess | src/main/java/cache/replacement/ReplacementAlgorithm.java:20-27 | The time of a key's last access. The history has that key there and never after. |
| Policies.LastAccessAppend | src/main/java/cache/replacement/ReplacementAlgorithm.java:20-27 | One more access to k moves k's last access to the end. Every other key's last access stays where it was. |
| Policies.ReflectsDistinct | src/main/java/cache/replacement/HashQueue.java:51-67 | A queue ordered by last access has no duplicates. |
| Policies.CutReflects | src/main/java/cache/replacement/HashQueue.java:60-67 | Cutting one position out keeps the queue ordered by last access. |
| Policies.WithoutReflects | src/main/java/cache/replacement/LeastRecentlyUsed.java:25-27 | notifyDelete keeps the queue ordered by last access. |
| Policies.TouchReflects | src/main/java/cache/replacement/LeastRecentlyUsed.java:30-33 | notifyAccess(k) keeps the queue ordered by last access in the history extended by k. |
| Policies.VictimByLastAccess | src/main/java/cache/replacement/MostRecentlyUsed.java:15-21 | The popped key is queued. For LRU it is the key with the oldest last access, and for MRU the one with the newest. |
| Shards.RemoveEntry | src/main/java/cache/subcache/HashMapCacheSet.java:105-119 | remove leaves no entry for k and adds none; it returns a value exactly when k had an entry. |
| Shards.Evict | src/main/java/cache/replacement/LeastRecentlyUsed.java:14-22 | A failed evict is EvictionNotPossible and changes nothing. A successful one had a non-empty queue and leaves no entry for the victim. |
| Shards.Put | src/main/java/cache/subcache/HashMapCacheSet.java:35-54 | A successful put maps k to v and makes k the most recent key. A failed one changes nothing and happens only for a new key in a set at capacity. |
| Shards.Get | src/main/java/cache/subcache/HashMapCacheSet.java:67-81 | get never changes the entries. It hits exactly when k has an entry and returns that entry's value; a miss is CacheMiss and changes nothing. |
| Shards.ContainsKey | src/main/java/cache/subcache/HashMapCacheSet.java:92-103 | containsKey answers whether k has an entry and never changes the entries. |
| Shards.DistinctCount | src/main/java/cache/subcache/HashMapCacheSet.java:87-90 | A general fact about sequences that TracksCount needs: a sequence without duplicates has as many elements as its set of elements. |
| Shards.TracksCount | src/main/java/cache/subcache/HashMapCacheSet.java:87-90 | When the queue tracks the set's keys, the set holds exactly as many entries as the queue holds keys. |
| Shards.RemoveEntryMeaning | src/main/java/cache/subcache/HashMapCacheSet.java:105-119 | remove deletes exactly k and returns its value when present. It returns null and changes nothing when k is absent. The set invariant holds. |
| Shards.EvictMeaning | src/main/java/cache/replacement/LeastRecentlyUsed.java:14-21 | evict fails with EvictionNotPossible, changing nothing, exactly when the set is empty. Otherwise it removes the policy's victim, an entry of the set, and returns its value. |
| Shards.OrderNonEmpty | src/main/java/cache/replacement/LeastRecentlyUsed.java:15-17 | A set with entries has a non-empty queue, so evict's two emptiness tests agree. |
| Shards.EvictIsRemoveVictim | src/main/java/cache/replacement/MostRecentlyUsed.java:15-21 | evict is cacheSet.remove applied to the popped key, and that key is an entry of the set. |
| Shards.PutKeepsInv | src/main/java/cache/subcache/HashMapCacheSet.java:35-54 | put keeps the queue tracking exactly the set's keys. The set never exceeds blockSize. |
| Shards.StoreKeepsTracks | src/main/java/cache/subcache/HashMapCacheSet.java:45-49 | Storing a key and notifying its access keeps the queue tracking the keys. |
| Shards.PutMeaning | src/main/java/cache/subcache/HashMapCacheSet.java:35-54 | With room for one entry, put never fails and the key then maps to the value as the most recent key. In detail: an existing key returns its old value and evicts nothing; a new key with room returns null and grows the set by one; a new key in a full set evicts the policy's victim, returns its value, and keeps the size at capacity. |
| Shards.PutFailureUnchanged | src/main/java/cache/subcache/HashMapCacheSet.java:41-43 | A failed put leaves the set exactly as it was, with EvictionNotPossible. On a set that keeps its invariant, this happens only at capacity 0. |
| Shards.PutThenGet | src/main/java/cache/subcache/CacheSet.java:13-47 | After a successful put(k, v), get(k) returns v. |
| Shards.GetMeaning | src/main/java/cache/subcache/HashMapCacheSet.java:67-103 | get hits exactly when k has an entry. It returns that entry's value, makes k the most recent key, and keeps the entries. A miss is CacheMiss and changes nothing. containsKey answers k in blocks with get's effect. |
| Shards.StepsReflectHistory | src/main/java/cache/subcache/HashMapCacheSet.java:35-119 | put, get and remove keep the queue ordered by last access. A successful put or a hit extends the history by its key. |
| Shards.PutReflectsHistory | src/main/java/cache/subcache/HashMapCacheSet.java:35-54 | The put case of StepsReflectHistory, including the eviction path. |
| Shards.PutEvictsByRecency | src/main/java/cache/subcache/HashMapCacheSet.java:41-43 | A full set gives up, for a new key, the entry whose last access is the oldest (LRU) or the newest (MRU). |
| CacheSets.ReplacementAlgorithm.constructor | src/main/java/cache/replacement/LeastRecentlyUsed.java:10-12 | A new algorithm has an empty queue. |
| CacheSets.ReplacementAlgorithm.Reset | src/main/java/cache/replacement/MostRecentlyUsed.java:35-38 | reset installs a new, empty queue. |
| CacheSets.ReplacementAlgorithm.NotifyAccess | src/main/java/cache/replacement/LeastRecentlyUsed.java:30-33 | The queue becomes Touch(old order, key): the key moves to the tail, or is added there. |
| CacheSets.ReplacementAlgorithm.NotifyDelete | src/main/java/cache/replacement/MostRecentlyUsed.java:25-27 | The queue becomes Without(old order, key). An absent key changes nothing. |
| CacheSets.ReplacementAlgorithm.Evict | src/main/java/cache/replacement/LeastRecentlyUsed.java:14-21 | The pair (set entries, queue) and the result are exactly Shards.Evict. |
| CacheSets.ReplacementAlgorithm.PopVictim | src/main/java/cache/replacement/MostRecentlyUsed.java:20 | popFirst for LRU, popLast for MRU. The popped key is Victim(policy, order), and the queue becomes Remaining(policy, order). |
| CacheSets.HashMapCacheSet.constructor | src/main/java/cache/subcache/HashMapCacheSet.java:29-32 | The given capacity, no entries, and no algorithm yet. |
| CacheSets.HashMapCacheSet.SizeMatchesQueue | src/main/java/cache/subcache/CacheSet.java:65-78 | For a set whose algorithm tracks its keys: size() equals the number of queued keys and never exceeds maxSize(), and isEmpty() holds exactly when the queue is empty. |
| CacheSets.HashMapCacheSet.Size | src/main/java/cache/subcache/HashMapCacheSet.java:87-90 | The number of entries. What that number means for the queue (equal to its length, at most maxSize) is stated by SizeMatchesQueue. |
| CacheSets.HashMapCacheSet.MaxSize | src/main/java/cache/subcache/HashMapCacheSet.java:142-145 | The capacity the set was built with. SizeMatchesQueue proves that size never exceeds it. |
| CacheSets.HashMapCacheSet.IsEmpty | src/main/java/cache/subcache/HashMapCacheSet.java:147-150 | True exactly when there are no entries. |
| CacheSets.HashMapCacheSet.SetReplacementAlgorithm | src/main/java/cache/subcache/HashMapCacheSet.java:136-140 | Only the first algorithm attached is kept. The entries do not change. |
| CacheSets.HashMapCacheSet.EvictOneEntry | src/main/java/cache/subcache/HashMapCacheSet.java:56-61 | Without an algorithm it is EvictionNotPossible and nothing changes. Otherwise it is exactly the algorithm's evict. |
| CacheSets.HashMapCacheSet.Put | src/main/java/cache/subcache/HashMapCacheSet.java:35-54 | The new (entries, queue) and the result are exactly Shards.Put. Without an algorithm, a full set fails with EvictionNotPossible and is unchanged. |
| CacheSets.HashMapCacheSet.Get | src/main/java/cache/subcache/HashMapCacheSet.java:67-81 | Exactly Shards.Get: the value after notifyAccess, or CacheMiss. |
| CacheSets.HashMapCacheSet.ContainsKey | src/main/java/cache/subcache/HashMapCacheSet.java:92-103 | Exactly Shards.ContainsKey: whether get succeeds, with get's effect on the queue. |
| CacheSets.HashMapCacheSet.Remove | src/main/java/cache/subcache/HashMapCacheSet.java:105-119 | Exactly Shards.RemoveEntry: the old value or null, and notifyDelete only when the key was present. |
| CacheSets.HashMapCacheSet.Clear | src/main/java/cache/subcache/HashMapCacheSet.java:121-130 | No entries, and an empty queue after reset. |
| Routing.JavaQuot | src/main/java/cache/NWaySetAssociativeCache.java:71 | Java's / rounds toward zero: the quotient's magnitude is the largest q with q * n <= abs(a), and its sign follows the dividend. |
| Routing.Abs | src/main/java/cache/NWaySetAssociativeCache.java:71 | Math.abs on unbounded integers: x or -x, and at least both. |
| Routing.JavaRem | src/main/java/cache/NWaySetAssociativeCache.java:71 | Java's % has magnitude below the divisor and the sign of the dividend. |
| Routing.JavaDivision | src/main/java/cache/NWaySetAssociativeCache.java:71 | Java's division identity (a / n) * n + a % n == a, with abs(a % n) < n. |
| Routing.SetIndex | src/main/java/cache/NWaySetAssociativeCache.java:70-72 | indexOf always lies in [0, totalSets). |
| Routing.SetIndexOfAbs | src/main/java/cache/NWaySetAssociativeCache.java:70-72 | indexOf(h) == abs(h) mod totalSets, so h and -h select the same set. |
| Routing.WrapInt32 | src/main/java/cache/NWaySetAssociativeCache.java:129-131 | A Java int result: in [-2^31, 2^31), congruent to the exact value modulo 2^32, and equal to it when it fits. |
| Routing.WrapAdd | src/main/java/cache/NWaySetAssociativeCache.java:137 | Adding to a wrapped int and wrapping again gives the wrap of the exact sum, so size()'s step-by-step int sum is the wrapped total. |
| Routing.WrapZero | src/main/java/cache/NWaySetAssociativeCache.java:142-145 | An int sum wraps to 0 exactly when the exact sum is a multiple of 2^32; below 2^32 that means it is 0. |
| NWayCache.OwnedAppend | src/main/java/cache/NWaySetAssociativeCache.java:257-262 | A valid set with its own algorithm, disjoint from the others, may join the owned sets. |
| NWayCache.TotalEntries | src/main/java/cache/NWaySetAssociativeCache.java:133-140 | The exact number of entries over all sets: no set holds more than it. |
| NWayCache.TotalEntriesStep | src/main/java/cache/NWaySetAssociativeCache.java:136-138 | One more iteration of size()'s loop adds that set's size to the exact total. |
| NWayCache.TotalEntriesBound | src/main/java/cache/NWaySetAssociativeCache.java:133-140 | The sum of the set sizes is at most capacity times the number of sets. |
| NWayCache.TotalEntriesZero | src/main/java/cache/NWaySetAssociativeCache.java:142-145 | The sum is zero exactly when every set is empty. |
| NWayCache.NWaySetAssociativeCache.constructor | src/main/java/cache/NWaySetAssociativeCache.java:57-68 | It keeps the sets and the hash function. totalSets is the list's length, blockSize is the first set's maxSize, and both counters are 0. The cache is valid when the sets are owned. |
| NWayCache.NWaySetAssociativeCache.IndexOf | src/main/java/cache/NWaySetAssociativeCache.java:70-72 | The index of the key's set is a valid index. |
| NWayCache.NWaySetAssociativeCache.Put | src/main/java/cache/NWaySetAssociativeCache.java:78-88 | The key's set changes exactly as Shards.Put says. The result is the set's result, or null when eviction failed. No other set changes. |
| NWayCache.NWaySetAssociativeCache.PutAt | src/main/java/cache/NWaySetAssociativeCache.java:83 | set.put on sets[i] keeps the cache valid, does what Shards.Put says, and leaves the other sets alone. |
| NWayCache.NWaySetAssociativeCache.KeepOthers | src/main/java/cache/NWaySetAssociativeCache.java:74-76 | An operation confined to one set's objects keeps the cache valid and the other sets unchanged. |
| NWayCache.NWaySetAssociativeCache.OthersUnchanged | src/main/java/cache/NWaySetAssociativeCache.java:74-76 | The sets other than the one operated on keep their objects, validity and contents. |
| NWayCache.NWaySetAssociativeCache.Get | src/main/java/cache/NWaySetAssociativeCache.java:106-117 | A hit returns the value and adds one hit. A miss returns null and adds one miss. The key's set changes as Shards.Get says, and no other set changes. |
| NWayCache.NWaySetAssociativeCache.OnCacheHit | src/main/java/cache/NWaySetAssociativeCache.java:205-207 | hits grows by one, and nothing else changes. |
| NWayCache.NWaySetAssociativeCache.OnCacheMiss | src/main/java/cache/NWaySetAssociativeCache.java:216-218 | misses grows by one, and nothing else changes. |
| NWayCache.NWaySetAssociativeCache.ContainsKey | src/main/java/cache/NWaySetAssociativeCache.java:100-104 | True exactly when the key's set has an entry for it. That set changes as Shards.ContainsKey says, and no other set changes. |
| NWayCache.NWaySetAssociativeCache.Remove | src/main/java/cache/NWaySetAssociativeCache.java:119-123 | The key's set changes as Shards.RemoveEntry says, and its result is returned. No other set changes. |
| NWayCache.NWaySetAssociativeCache.Size | src/main/java/cache/NWaySetAssociativeCache.java:133-140 | The int loop returns the total number of entries wrapped to 32 bits, which is the total itself whenever it is below 2^31. |
| NWayCache.NWaySetAssociativeCache.IsEmpty | src/main/java/cache/NWaySetAssociativeCache.java:142-145 | True exactly when the total is a multiple of 2^32. Below 2^32 entries, true exactly when every set is empty. |
| NWayCache.NWaySetAssociativeCache.MaxSize | src/main/java/cache/NWaySetAssociativeCache.java:129-131 | blockSize * totalSets as a Java int: always in int range, and equal to the capacity when the product fits. |
| NWayCache.NWaySetAssociativeCache.Capacity | src/main/java/cache/NWaySetAssociativeCache.java:129-131 | The exact blockSize * totalSets that maxSize is meant to return. It is the bound of SizeWithinCapacity, and MaxSize equals it whenever the product fits in an int. |
| NWayCache.NWaySetAssociativeCache.SizeWithinCapacity | src/main/java/cache/NWaySetAssociativeCache.java:129-140 | When every set has the cache's block size, size never exceeds blockSize * totalSets. |
| NWayCache.NWaySetAssociativeCache.Clear | src/main/java/cache/NWaySetAssociativeCache.java:147-152 | Every set is empty with an empty queue, and both counters are 0. |
| NWayCache.NWaySetAssociativeCache.ClearSets | src/main/java/cache/NWaySetAssociativeCache.java:149 | The forEach over the sets leaves every set empty and the cache valid. |
| NWayCache.NWaySetAssociativeCache.ClearSet | src/main/java/cache/NWaySetAssociativeCache.java:149 | Clearing one set empties it and leaves the others alone. |
| NWayCache.NWaySetAssociativeCache.ResetCounters | src/main/java/cache/NWaySetAssociativeCache.java:150-151 | Both counters become 0, and the sets do not change. |
| NWayCache.NWaySetAssociativeCache.GetReplacementAlgorithmName | src/main/java/cache/NWaySetAssociativeCache.java:154-161 | The recorded name, and "UNKNOWN" exactly when none was recorded or "UNKNOWN" itself was. SetReplacementAlgorithmName, NameDiscarded and Builder.BuildAsWritten state what it returns after each of them. |
| NWayCache.NWaySetAssociativeCache.SetReplacementAlgorithmName | src/main/java/cache/NWaySetAssociativeCache.java:154-173 | The name is recorded, and getReplacementAlgorithmName then returns it. Nothing else changes. |
| NWayCache.NWaySetAssociativeCache.SetHashFunction | src/main/java/cache/NWaySetAssociativeCache.java:220-222 | Later lookups route by the new function. The entries stay where they are. |
| NWayCache.Create | src/main/java/cache/NWaySetAssociativeCache.java:57-68 | Refused exactly when the list is empty or the hash function is null; any other list is accepted, sets sharing one algorithm included. The new cache keeps the sets and the hash, takes totalSets from the list and blockSize from its first set, and starts with zero counters and no name. It is valid when each set owns its algorithm. |
| NWayCache.Builder.constructor | src/main/java/cache/NWaySetAssociativeCache.java:235-242 | Defaults: 4 blocks, 10 sets, no algorithm and no hash function yet. |
| NWayCache.Builder.SetTotalSets | src/main/java/cache/NWaySetAssociativeCache.java:287-293 | A non-positive count is refused and changes nothing. Otherwise it is stored. |
| NWayCache.Builder.SetBlockSize | src/main/java/cache/NWaySetAssociativeCache.java:301-307 | A non-positive size is refused and changes nothing. Otherwise it is stored. |
| NWayCache.Builder.SetReplacementAlgorithm | src/main/java/cache/NWaySetAssociativeCache.java:316-319 | The caller's algorithm instance is stored, even null. Nothing else changes. |
| NWayCache.Builder.SetHashFunction | src/main/java/cache/NWaySetAssociativeCache.java:328-331 | The hash function is stored, even null. |
| NWayCache.Builder.FillDefaults | src/main/java/cache/NWaySetAssociativeCache.java:248-256 | A null algorithm becomes a new, empty LRU instance that the builder keeps. A held instance is kept as it is. A null hash function becomes the default one. |
| NWayCache.Builder.Build | src/main/java/cache/NWaySetAssociativeCache.java:247-266 | Corrected build: a valid cache of totalSets empty sets of blockSize entries. Each set has a new algorithm of the held algorithm's kind, the counters are 0, the hash function is the given or default one, and the name is the algorithm's. |
| NWayCache.Builder.BuildAsWritten | src/main/java/cache/NWaySetAssociativeCache.java:247-266 | Build as written: the held instance (or a new LRU, kept for later builds) is attached to every set. The cache has totalSets sets of blockSize entries, the given or default hash function, zero counters, and reports "UNKNOWN". |
| NWayCache.RebuildShares | src/main/java/cache/NWaySetAssociativeCache.java:254-260 | Two caches built in turn by one builder hold the same algorithm instance in their sets. |
| NWayCache.BlankAppend | src/main/java/cache/NWaySetAssociativeCache.java:258-262 | A new empty set with its own algorithm extends the blank, owned sets. |
| NWayCache.NewSet | src/main/java/cache/NWaySetAssociativeCache.java:259-260 | A new set of the given capacity, with a new algorithm of the policy, empty. |
| NWayCache.NewCache | src/main/java/cache/NWaySetAssociativeCache.java:257-265 | The corrected tail of build: owned blank sets, and the returned cache carries the name. |
| NWayCache.MakeSets | src/main/java/cache/NWaySetAssociativeCache.java:257-262 | The corrected loop: count blank sets, each with an algorithm of its own. |
| NWayCache.MakeSetsSharing | src/main/java/cache/NWaySetAssociativeCache.java:257-262 | The loop as written: count distinct, empty sets that all hold the given algorithm, whatever its queue already holds. |
| NWayCache.NameDiscarded | src/main/java/cache/NWaySetAssociativeCache.java:263-264 | The cache that build names: a new cache over the same sets and hash function, which reports the name. |
| NWayCache.MaxSizeOverflow | src/main/java/cache/NWaySetAssociativeCache.java:129-131 | With 65536 sets of 65536 blocks, maxSize returns 0 although the capacity is 2^32. |
| NWayCache.SharedQueueTrace | src/main/java/cache/subcache/HashMapCacheSet.java:41-45 | The shared queue step by step: the third put evicts the other set's key, and the set keeps two entries. |
| NWayCache.SharedAlgorithmOverflow | src/main/java/cache/NWaySetAssociativeCache.java:257-262 | Two sets of capacity 1 sharing one LRU algorithm: after three puts, one set holds 2 entries. |
| NWayCache.SharedAfterOtherPut | src/main/java/cache/NWaySetAssociativeCache.java:257-262 | After a put into the other set, the first, still empty, set sees that key in its algorithm's queue. |
| NWayCache.PutFirstKey | src/main/java/cache/subcache/HashMapCacheSet.java:35-54 | A put into an empty LRU set of capacity 1 queues the key in its algorithm. |
| NWayCache.TwoSharingSets | src/main/java/cache/NWaySetAssociativeCache.java:257-262 | Build's loop for two sets of capacity 1: two distinct empty sets holding one new LRU algorithm. |
| Scenarios.PutNewWithRoom | src/main/java/cache/subcache/HashMapCacheSet.java:40-49 | A new key in a set with room is inserted, queued last, and null is returned. |
| Scenarios.PutNewWhenFull | src/main/java/cache/subcache/HashMapCacheSet.java:41-49 | A new key in a full set replaces the victim and is queued last. The victim's value is returned. |
| Scenarios.PutAllFresh | src/integrationTest/java/cache/ReplacementTest.java:31-34 | Putting distinct new keys into a set with room queues them in order and evicts nothing. |
| Scenarios.PutIntoFullStep | src/main/java/cache/subcache/HashMapCacheSet.java:41-49 | In a full set of five mapping keys to themselves, a new key evicts the victim, which is an entry. |
| Scenarios.PutIntoFull | src/integrationTest/java/cache/ReplacementTest.java:37-39 | Such a put returns the victim, queues the key last, and leaves a full set of five. |
| Scenarios.SelfMapFirstFive | src/integrationTest/java/cache/ReplacementTest.java:31-34 | Keys 0..4 mapped to themselves. |
| Scenarios.FirstFiveFull | src/integrationTest/java/cache/ReplacementTest.java:31-34 | Keys 0..4 queued in order form a full set of five. |
| Scenarios.FillFive | src/integrationTest/java/cache/ReplacementTest.java:31-34 | Putting key0..key4 into an empty set of five queues them in that order. |
| Scenarios.GetKeepsFull | src/integrationTest/java/cache/ReplacementTest.java:35 | A read of a present key moves it to the tail and keeps the set full. |
| Scenarios.TouchFirstOfFive | src/integrationTest/java/cache/ReplacementTest.java:35 | Reading key0 moves it to the end of the queue. |
| Scenarios.TouchLastOfFive | src/integrationTest/java/cache/ReplacementTest.java:69 | Reading key4 leaves the queue as it was. |
| Scenarios.LeastRecentlyUsedScenario | src/integrationTest/java/cache/ReplacementTest.java:31-39 | LRU: after key0..key4 and a get of key0, a new key evicts key1 and key0 stays. |
| Scenarios.MostRecentlyUsedEvictsPrevious | src/integrationTest/java/cache/ReplacementTest.java:74-79 | MRU: a new key put into a full set is the victim of the next new key. |
| Scenarios.MostRecentlyUsedScenario | src/integrationTest/java/cache/ReplacementTest.java:65-77 | MRU: after key0..key4 and a get of key4, a new key evicts key4. The next new key evicts the one put just before it. |

## Left out

- Locking: the read/write lock of HashMapCacheSet and the `synchronized` methods. Every operation is atomic and sequential here.
- The concurrency test harness, and the hash functions. The hash is a parameter `K -> int`, and the null-safe default is a parameter of `Build`.
- SubCacheFactory: it always makes a HashMapCacheSet, so the sub-cache type setting has no counterpart.
- `keys()` / `values()` of HashMapCacheSet, and the getters `getBlocks`, `getReplacementAlgorithm`, `getHits`, `getMisses` and `getBlockSize`. They only expose fields the model reads directly.
- The `CacheSet`, `Cache` and `ReplacementAlgorithm` interfaces have no Dafny type of their own. Their documented promises are the ensures of the classes' methods and the lemmas of `Shards`. LRU and MRU are one class, told apart by a `policy` constant.
- The subclass hooks `onEvictionNotPossible`, `onCacheHit(key)` and `onCacheMiss(key)`: only their default behaviour is modelled. That is nothing, and a hit or miss count.
- `getClass().getSimpleName()` is the function `Policies.Name`.
- Thread interleavings that concurrent callers could produce.
- HashQueues.HashQueue.Push: requires that the key is not queued. Java's push of a queued key overwrites the map entry and leaves the old node linked, a state the queue invariant excludes. The only caller, notifyAccess, removes the key first.
- CacheSets.HashMapCacheSet.Get: requires an algorithm when the key has an entry. Java would throw NullPointerException at notifyAccess, and that path is not modelled.
- CacheSets.HashMapCacheSet.ContainsKey: requires an algorithm when the key has an entry, for the same reason as Get.
- CacheSets.HashMapCacheSet.Remove: requires an algorithm when the key has an entry. Java would throw NullPointerException at notifyDelete.
- CacheSets.HashMapCacheSet.Clear: requires an algorithm. Java would throw NullPointerException at reset.
- CacheSets.HashMapCacheSet.Put: requires an algorithm unless the put takes the eviction path, where Java checks for null and fails with EvictionNotPossible (modelled). On other paths Java would throw NullPointerException at notifyAccess.
- CacheSets.ReplacementAlgorithm.Evict: modelled only on the set the algorithm is attached to, which is how the cache calls it. An algorithm shared by several sets (build as written) is modelled separately by MakeSetsSharing and SharedAlgorithmOverflow.
- Removed HashQueue nodes keep their slot in the index arena, the way an unreachable Java object lingers until collected. Memory reuse is not modelled.
- The facade's operations are proved for the owned-sets configuration (each set with an algorithm of its own). The facade's behaviour on sets that share an algorithm is shown only by the witness under Findings.
- The hit and miss counters are unbounded integers. Java's `long` would wrap only after 2^63 operations.
- NWayCache.Builder.SetReplacementAlgorithm: only the two algorithms of the model (LeastRecentlyUsed, MostRecentlyUsed) can be handed in. A caller's own subclass of ReplacementAlgorithm is not modelled.
- NWayCache.Builder.BuildAsWritten: requires a held algorithm to satisfy its representation invariant. Every instance the model can create does.
- NWayCache.Builder.Build: the corrected build creates fresh algorithms of the held instance's kind. A caller who wants that very instance (with its queue) in the cache has no corrected counterpart.

## Findings

| source | as written | input that shows it | evidently intended | confidence | as-written member | corrected member |
|---|---|---|---|---|---|---|
| src/main/java/cache/NWaySetAssociativeCache.java:254-262 | build attaches the builder's one algorithm instance to every set, and again to every set of every later build (RebuildShares). An eviction in one set can pop another set's key; `remove` of that key then removes nothing, and put inserts anyway. | Two sets of block size 1 sharing one LRU algorithm: put 2 into the second set, then put 1 and 3 into the first. The first set ends with 2 entries. | Each set gets its own algorithm, so every set's queue tracks exactly its own keys and no set exceeds blockSize. | not executed | NWayCache.SharedAlgorithmOverflow | NWayCache.Builder.Build |
| src/main/java/cache/NWaySetAssociativeCache.java:129-131 | maxSize multiplies two ints, and the product wraps. | blockSize = 65536 and totalSets = 65536, both accepted by the Builder: maxSize returns 0. | The capacity blockSize * totalSets, which bounds size(). | not executed | NWayCache.MaxSizeOverflow | NWayCache.NWaySetAssociativeCache.SizeWithinCapacity |
| src/main/java/cache/NWaySetAssociativeCache.java:263-265 | build records the algorithm's name on a cache it then discards, and returns a second instance without a name. | Any build: getReplacementAlgorithmName() on the returned cache is "UNKNOWN". | The returned cache reports the algorithm's class name. | not executed | NWayCache.Builder.BuildAsWritten | NWayCache.NewCache |
