/**
 * HashQueue: a circular doubly linked list with a sentinel node, plus a map
 * from key to node, giving constant-time push at the tail, pop at either end
 * and removal by key.
 *
 * The nodes live in an arena: node `n` is the triple (ids[n], next[n],
 * prev[n]), node 0 is the sentinel (its id is null, here `None`), and a link
 * is the index of the node it points to. A node that is taken out of the list
 * keeps its slot and its stale links, as an unreachable Java object would.
 */
module HashQueues {
  import opened Optional
  import opened KeyOrder

  /** The node before the first: the sentinel when `nodes` is empty. */
  function First(nodes: seq<nat>): nat {
    if nodes == [] then 0 else nodes[0]
  }

  /** The node before the sentinel, going backwards: the last node, or the sentinel itself. */
  function Last(nodes: seq<nat>): nat {
    if nodes == [] then 0 else nodes[|nodes| - 1]
  }

  /** The successor of the `i`-th listed node: the next one, or the sentinel after the last. */
  function After(nodes: seq<nat>, i: nat): nat
    requires i < |nodes|
  {
    if i + 1 < |nodes| then nodes[i + 1] else 0
  }

  /** The predecessor of the `i`-th listed node: the previous one, or the sentinel before the first. */
  function Before(nodes: seq<nat>, i: nat): nat
    requires i < |nodes|
  {
    if i > 0 then nodes[i - 1] else 0
  }

  /**
   * The links `next`/`prev` form the circle sentinel, nodes[0], ...,
   * nodes[|nodes| - 1], sentinel, in both directions, over distinct
   * non-sentinel slots of the arena.
   */
  ghost predicate Linked(nodes: seq<nat>, next: seq<nat>, prev: seq<nat>) {
    && |next| == |prev| >= 1
    && (forall i :: 0 <= i < |nodes| ==> 0 < nodes[i] < |next|)
    && Distinct(nodes)
    && next[0] == First(nodes) && prev[0] == Last(nodes)
    && (forall i {:trigger next[nodes[i]]} :: 0 <= i < |nodes| ==> next[nodes[i]] == After(nodes, i))
    && (forall i {:trigger prev[nodes[i]]} :: 0 <= i < |nodes| ==> prev[nodes[i]] == Before(nodes, i))
  }

  /** Follow `next` links from `at` for at most `steps` nodes, stopping at the sentinel. */
  function Walk(next: seq<nat>, at: nat, steps: nat): (r: seq<nat>)
    ensures |r| <= steps
    decreases steps
  {
    if steps == 0 || at == 0 || at >= |next| then [] else [at] + Walk(next, next[at], steps - 1)
  }

  /** From the `j`-th listed node, walking forwards visits exactly the rest of the list. */
  lemma {:induction false} WalkFrom(nodes: seq<nat>, next: seq<nat>, prev: seq<nat>, j: nat)
    requires Linked(nodes, next, prev) && j < |nodes|
    ensures Walk(next, nodes[j], |nodes| - j) == nodes[j..]
    decreases |nodes| - j
  {
    var at := nodes[j];
    assert 0 < at < |next| && next[at] == After(nodes, j);
    if j + 1 < |nodes| {
      WalkFrom(nodes, next, prev, j + 1);
      assert Walk(next, at, |nodes| - j) == [at] + Walk(next, nodes[j + 1], |nodes| - (j + 1));
      assert nodes[j..] == [at] + nodes[j + 1..];
    } else {
      assert Walk(next, at, 1) == [at] + Walk(next, 0, 0);
    }
  }

  /**
   * The keys reachable from the sentinel are the listed nodes, in order: the
   * walk from the sentinel's successor visits every listed node once and is
   * then back at the sentinel.
   */
  lemma Traversal(nodes: seq<nat>, next: seq<nat>, prev: seq<nat>)
    requires Linked(nodes, next, prev)
    ensures Walk(next, next[0], |nodes|) == nodes
    ensures nodes != [] ==> next[Last(nodes)] == 0
  {
    if nodes != [] {
      WalkFrom(nodes, next, prev, 0);
    }
  }

  /**
   * pushNode: the new slot `n` goes between the last node and the sentinel;
   * the circle becomes sentinel, nodes..., n, sentinel.
   */
  lemma LinkLast(nodes: seq<nat>, next: seq<nat>, prev: seq<nat>, n: nat)
    requires Linked(nodes, next, prev) && n == |next|
    ensures var last := prev[0];
      Linked(nodes + [n], (next + [0])[last := n], (prev + [last])[0 := n])
  {
    var last := prev[0];
    var nodes' := nodes + [n];
    var next' := (next + [0])[last := n];
    var prev' := (prev + [last])[0 := n];
    assert Distinct(nodes') by {
      forall a, b | 0 <= a < b < |nodes'| ensures nodes'[a] != nodes'[b] {
        if b == |nodes| {
          assert nodes'[a] == nodes[a] < |next|;
        }
      }
    }
    LinkLastNext(nodes, next, prev, n);
    LinkLastPrev(nodes, next, prev, n);
  }

  /** The forward links after pushNode. */
  lemma LinkLastNext(nodes: seq<nat>, next: seq<nat>, prev: seq<nat>, n: nat)
    requires Linked(nodes, next, prev) && n == |next|
    ensures var nodes', next' := nodes + [n], (next + [0])[prev[0] := n];
      forall i {:trigger next'[nodes'[i]]} :: 0 <= i < |nodes'| ==> next'[nodes'[i]] == After(nodes', i)
  {
    var last := prev[0];
    var nodes' := nodes + [n];
    var next' := (next + [0])[last := n];
    forall i | 0 <= i < |nodes'| ensures next'[nodes'[i]] == After(nodes', i) {
      if i < |nodes| {
        assert nodes'[i] == nodes[i];
        if i + 1 == |nodes| {
          assert last == nodes[i];
        } else {
          assert nodes[i] != last;
        }
      }
    }
  }

  /** The backward links after pushNode. */
  lemma LinkLastPrev(nodes: seq<nat>, next: seq<nat>, prev: seq<nat>, n: nat)
    requires Linked(nodes, next, prev) && n == |next|
    ensures var nodes', prev' := nodes + [n], (prev + [prev[0]])[0 := n];
      forall i {:trigger prev'[nodes'[i]]} :: 0 <= i < |nodes'| ==> prev'[nodes'[i]] == Before(nodes', i)
  {
    var nodes' := nodes + [n];
    var prev' := (prev + [prev[0]])[0 := n];
    forall i | 0 <= i < |nodes'| ensures prev'[nodes'[i]] == Before(nodes', i) {
      if i < |nodes| {
        assert nodes'[i] == nodes[i];
      }
    }
  }

  /** A list with its `i`-th element cut out: every later element moves one place forward. */
  lemma CutShifts<T>(s: seq<T>, i: nat)
    requires Distinct(s) && i < |s|
    ensures var cut := s[..i] + s[i + 1..];
      && |cut| == |s| - 1
      && (forall j :: 0 <= j < |cut| ==> cut[j] == s[if j < i then j else j + 1])
      && Distinct(cut)
      && s[i] !in cut
  {
    var cut := s[..i] + s[i + 1..];
    forall j | 0 <= j < |cut| ensures cut[j] == s[if j < i then j else j + 1] {
    }
    forall a, b | 0 <= a < b < |cut| ensures cut[a] != cut[b] {
      assert cut[a] == s[if a < i then a else a + 1];
      assert cut[b] == s[if b < i then b else b + 1];
    }
    forall j | 0 <= j < |cut| ensures cut[j] != s[i] {
      assert cut[j] == s[if j < i then j else j + 1];
    }
  }

  /** After the cut, the successor links of the remaining nodes are right. */
  lemma UnlinkNext(nodes: seq<nat>, next: seq<nat>, prev: seq<nat>, i: nat)
    requires Linked(nodes, next, prev) && i < |nodes|
    ensures var n := nodes[i];
      var cut := nodes[..i] + nodes[i + 1..];
      var next' := next[prev[n] := next[n]];
      && next'[0] == First(cut)
      && forall j :: 0 <= j < |cut| ==> next'[cut[j]] == After(cut, j)
  {
    var n := nodes[i];
    var nx := next[n];
    var pv := prev[n];
    var cut := nodes[..i] + nodes[i + 1..];
    var next' := next[pv := nx];
    CutShifts(nodes, i);
    assert nx == After(nodes, i) && pv == Before(nodes, i);
    forall j | 0 <= j < |cut| ensures next'[cut[j]] == After(cut, j) {
      var o := if j < i then j else j + 1;
      if j + 1 == i {
        assert nodes[o] == pv;
      } else {
        assert nodes[o] != pv;
      }
    }
  }

  /** After the cut, the predecessor links of the remaining nodes are right. */
  lemma UnlinkPrev(nodes: seq<nat>, next: seq<nat>, prev: seq<nat>, i: nat)
    requires Linked(nodes, next, prev) && i < |nodes|
    ensures var n := nodes[i];
      var cut := nodes[..i] + nodes[i + 1..];
      var prev' := prev[next[n] := prev[n]];
      && prev'[0] == Last(cut)
      && forall j :: 0 <= j < |cut| ==> prev'[cut[j]] == Before(cut, j)
  {
    var n := nodes[i];
    var nx := next[n];
    var pv := prev[n];
    var cut := nodes[..i] + nodes[i + 1..];
    var prev' := prev[nx := pv];
    CutShifts(nodes, i);
    assert nx == After(nodes, i) && pv == Before(nodes, i);
    forall j | 0 <= j < |cut| ensures prev'[cut[j]] == Before(cut, j) {
      var o := if j < i then j else j + 1;
      if j == i {
        assert nodes[o] == nx;
      } else {
        assert nodes[o] != nx;
      }
    }
  }

  /**
   * removeNode: linking the `i`-th node's neighbours to each other cuts it out
   * of the circle and leaves the other nodes in their order.
   */
  lemma Unlink(nodes: seq<nat>, next: seq<nat>, prev: seq<nat>, i: nat)
    requires Linked(nodes, next, prev) && i < |nodes|
    ensures var n := nodes[i];
      Linked(nodes[..i] + nodes[i + 1..], next[prev[n] := next[n]], prev[next[n] := prev[n]])
  {
    CutShifts(nodes, i);
    UnlinkNext(nodes, next, prev, i);
    UnlinkPrev(nodes, next, prev, i);
  }

  /** Each listed node carries its key as id; the sentinel carries none. */
  ghost predicate Labelled<K>(ids: seq<Option<K>>, keys: seq<K>, nodes: seq<nat>) {
    && |ids| >= 1 && ids[0] == None
    && |keys| == |nodes|
    && (forall i :: 0 <= i < |nodes| ==> nodes[i] < |ids| && ids[nodes[i]] == Some(keys[i]))
  }

  /** The map takes exactly the listed keys to their nodes. */
  ghost predicate Indexed<K>(lookup: map<K, nat>, keys: seq<K>, nodes: seq<nat>) {
    && |keys| == |nodes|
    && (forall k :: k in lookup ==> k in keys)
    && (forall i :: 0 <= i < |keys| ==> keys[i] in lookup && lookup[keys[i]] == nodes[i])
  }

  /** The whole queue invariant, on the fields' values. */
  ghost predicate QueueInv<K>(ids: seq<Option<K>>, next: seq<nat>, prev: seq<nat>, lookup: map<K, nat>,
                              keys: seq<K>, nodes: seq<nat>) {
    Linked(nodes, next, prev) && |ids| == |next| && Labelled(ids, keys, nodes) && Indexed(lookup, keys, nodes)
  }

  /** A new node labelled with a new key, appended to the list. */
  lemma LabelLast<K>(ids: seq<Option<K>>, keys: seq<K>, nodes: seq<nat>, key: K)
    requires Labelled(ids, keys, nodes)
    ensures Labelled(ids + [Some(key)], keys + [key], nodes + [|ids|])
  {
  }

  /** Keys the map takes to distinct nodes are distinct themselves. */
  lemma KeysDistinct<K>(lookup: map<K, nat>, keys: seq<K>, nodes: seq<nat>)
    requires Indexed(lookup, keys, nodes) && Distinct(nodes)
    ensures Distinct(keys)
  {
    forall i, j | 0 <= i < j < |keys| ensures keys[i] != keys[j] {
      assert nodes[i] != nodes[j];
    }
  }

  /** A new key mapped to its new node, appended to the list. */
  lemma IndexLast<K>(lookup: map<K, nat>, keys: seq<K>, nodes: seq<nat>, key: K, n: nat)
    requires Indexed(lookup, keys, nodes) && key !in keys
    ensures Indexed(lookup[key := n], keys + [key], nodes + [n])
  {
    var keys' := keys + [key];
    forall k | k in lookup[key := n] ensures k in keys' {
      if k != key {
        assert k in keys;
        var i :| 0 <= i < |keys| && keys[i] == k;
        assert keys'[i] == k;
      }
    }
  }

  /** The `i`-th node and its key cut out of a labelled list. */
  lemma LabelCut<K>(ids: seq<Option<K>>, keys: seq<K>, nodes: seq<nat>, i: nat)
    requires Labelled(ids, keys, nodes) && i < |nodes|
    ensures Labelled(ids, keys[..i] + keys[i + 1..], nodes[..i] + nodes[i + 1..])
  {
    var keys' := keys[..i] + keys[i + 1..];
    var nodes' := nodes[..i] + nodes[i + 1..];
    forall j | 0 <= j < |nodes'| ensures nodes'[j] < |ids| && ids[nodes'[j]] == Some(keys'[j]) {
      var o := if j < i then j else j + 1;
      assert nodes'[j] == nodes[o] && keys'[j] == keys[o];
    }
  }

  /** The `i`-th key cut out of the list and out of the map. */
  lemma IndexCut<K>(lookup: map<K, nat>, keys: seq<K>, nodes: seq<nat>, i: nat)
    requires Indexed(lookup, keys, nodes) && Distinct(keys) && i < |keys|
    ensures Indexed(lookup - {keys[i]}, keys[..i] + keys[i + 1..], nodes[..i] + nodes[i + 1..])
  {
    var keys' := keys[..i] + keys[i + 1..];
    var nodes' := nodes[..i] + nodes[i + 1..];
    CutShifts(keys, i);
    forall j | 0 <= j < |keys'| ensures keys'[j] in lookup - {keys[i]} && (lookup - {keys[i]})[keys'[j]] == nodes'[j] {
      var o := if j < i then j else j + 1;
      assert nodes'[j] == nodes[o] && keys'[j] == keys[o];
    }
    forall k | k in lookup - {keys[i]} ensures k in keys' {
      var o :| 0 <= o < |keys| && keys[o] == k;
      assert keys'[if o < i then o else o - 1] == k;
    }
  }

  /** push keeps the queue invariant and appends the key. */
  lemma PushKeeps<K>(ids: seq<Option<K>>, next: seq<nat>, prev: seq<nat>, lookup: map<K, nat>,
                     keys: seq<K>, nodes: seq<nat>, key: K)
    requires QueueInv(ids, next, prev, lookup, keys, nodes) && key !in keys
    ensures var n := |ids|;
      var last := prev[0];
      QueueInv(ids + [Some(key)], (next + [0])[last := n], (prev + [last])[0 := n], lookup[key := n],
               keys + [key], nodes + [n])
  {
    LinkLast(nodes, next, prev, |ids|);
    LabelLast(ids, keys, nodes, key);
    IndexLast(lookup, keys, nodes, key, |ids|);
  }

  /**
   * remove of a queued key (map.remove, then removeNode on the node it
   * returned) keeps the invariant and drops exactly that key; `nodes'` are
   * the nodes that stay listed.
   */
  lemma RemoveKeeps<K>(ids: seq<Option<K>>, next: seq<nat>, prev: seq<nat>, lookup: map<K, nat>,
                       keys: seq<K>, nodes: seq<nat>, key: K, n: nat, nx: nat, pv: nat)
    returns (keys': seq<K>, nodes': seq<nat>)
    requires QueueInv(ids, next, prev, lookup, keys, nodes) && key in lookup && n == lookup[key]
    ensures n < |next| && nx == next[n] ==> nx < |prev|
    ensures n < |next| && pv == prev[n] ==> pv < |next|
    ensures n < |next| && nx == next[n] && pv == prev[n] ==>
      && keys' == Without(keys, key)
      && QueueInv(ids, next[pv := nx], prev[nx := pv], lookup - {key}, keys', nodes')
  {
    var i :| 0 <= i < |keys| && keys[i] == key;
    assert lookup[key] == nodes[i];
    KeysDistinct(lookup, keys, nodes);
    Unlink(nodes, next, prev, i);
    LabelCut(ids, keys, nodes, i);
    IndexCut(lookup, keys, nodes, i);
    WithoutAt(keys, i);
    keys' := keys[..i] + keys[i + 1..];
    nodes' := nodes[..i] + nodes[i + 1..];
  }

  class HashQueue<K(==)> {
    /** The id of each node of the arena; the sentinel's is null. */
    var ids: seq<Option<K>>
    /** nextNode of each node, as an index into the arena. */
    var next: seq<nat>
    /** previousNode of each node, as an index into the arena. */
    var prev: seq<nat>
    /** The key to node map. */
    var lookup: map<K, nat>

    /** The queue's keys from head to tail. */
    ghost var Keys: seq<K>
    /** The nodes holding `Keys`, in the same order. */
    ghost var Nodes: seq<nat>

    /**
     * The queue invariant: the nodes reachable from the sentinel hold the
     * keys in order, no key twice, and the map takes exactly those keys to
     * their nodes.
     */
    ghost predicate Valid()
      reads this
    {
      QueueInv(ids, next, prev, lookup, Keys, Nodes)
    }

    /** A new queue: the sentinel links to itself and the map is empty. */
    constructor ()
      ensures Valid() && Keys == []
      ensures next == [0] && prev == [0] && lookup == map[]
    {
      ids := [None];
      next := [0];
      prev := [0];
      lookup := map[];
      Keys := [];
      Nodes := [];
    }

    /** isEmpty: the sentinel is its own successor exactly when the queue holds no key. */
    function IsEmpty(): (b: bool)
      reads this
      requires Valid()
      ensures b <==> Keys == []
    {
      next[0] == 0
    }

    /**
     * push (with pushNode): a key not yet queued goes to the tail, after
     * every key already there.
     */
    method Push(key: K)
      requires Valid() && key !in Keys
      modifies this
      ensures Valid() && Keys == old(Keys) + [key]
    {
      PushKeeps(ids, next, prev, lookup, Keys, Nodes, key);
      var pushed := |ids|;
      ids := ids + [Some(key)];
      lookup := lookup[key := pushed];
      var last := prev[0];
      next := next + [0];
      prev := prev + [last];
      prev := prev[0 := pushed];
      next := next[last := pushed];
      Keys := Keys + [key];
      Nodes := Nodes + [pushed];
    }

    /**
     * remove (map.remove followed by removeNode): the key leaves the queue and
     * every other key keeps its place; a key that is not queued changes
     * nothing.
     */
    method Remove(key: K)
      requires Valid()
      modifies this
      ensures Valid() && Keys == Without(old(Keys), key)
      ensures key !in old(Keys) ==> ids == old(ids) && next == old(next) && prev == old(prev) && lookup == old(lookup)
    {
      if key in lookup {
        RemoveNode(key);
      } else {
        assert key !in Keys;
        WithoutAbsent(Keys, key);
      }
    }

    /** removeNode on the node the map held for `key`: its neighbours are linked to each other. */
    method RemoveNode(key: K)
      requires Valid() && key in lookup
      modifies this
      ensures Valid() && Keys == Without(old(Keys), key)
    {
      var removed := lookup[key];
      var nx := next[removed];
      var pv := prev[removed];
      ghost var keys', nodes' := RemoveKeeps(ids, next, prev, lookup, Keys, Nodes, key, removed, nx, pv);
      lookup := lookup - {key};
      prev := prev[nx := pv];
      next := next[pv := nx];
      Keys := keys';
      Nodes := nodes';
    }

    /**
     * popFirst: on a non-empty queue, the head key is returned and removed and
     * the rest keep their order; on an empty queue the sentinel's null id is
     * returned and nothing changes.
     */
    method PopFirst() returns (top: Option<K>)
      requires Valid()
      modifies this
      ensures Valid()
      ensures old(Keys) == [] ==> top == None && Keys == []
      ensures old(Keys) != [] ==> top == Some(old(Keys)[0]) && Keys == old(Keys)[1..]
    {
      var node := next[0];
      top := ids[node];
      if top.Some? {
        assert node == Nodes[0];
        KeysDistinct(lookup, Keys, Nodes);
        Remove(top.value);
        WithoutAt(old(Keys), 0);
      }
    }

    /**
     * popLast: on a non-empty queue, the tail key is returned and removed and
     * the rest keep their order; on an empty queue the sentinel's null id is
     * returned and nothing changes.
     */
    method PopLast() returns (bottom: Option<K>)
      requires Valid()
      modifies this
      ensures Valid()
      ensures old(Keys) == [] ==> bottom == None && Keys == []
      ensures old(Keys) != [] ==> bottom == Some(old(Keys)[|old(Keys)| - 1]) && Keys == old(Keys)[..|old(Keys)| - 1]
    {
      var node := prev[0];
      bottom := ids[node];
      if bottom.Some? {
        assert node == Nodes[|Nodes| - 1];
        KeysDistinct(lookup, Keys, Nodes);
        Remove(bottom.value);
        WithoutAt(old(Keys), |old(Keys)| - 1);
      }
    }
  }
}
