/** The LRU cache of lru.py as it is built: a hash map from keys to nodes
    of a doubly linked list, `start` the most recently used node and `end`
    the least recently used one. The ghost field `nodes` is the list in
    order from `start` to `end`, and `contents` its entries; every method
    is proved to change `contents` as the functions of `LruSpec` say. */
module Lru {
  import opened LruSpec

  /** A list node: its key never changes, its value does. */
  class Node {
    const key: int
    var value: int
    var left: Node?
    var right: Node?

    constructor (k: int, v: int)
      ensures key == k && value == v && left == null && right == null
    {
      key := k;
      value := v;
      left := null;
      right := null;
    }
  }

  /** A subset as large as its superset is all of it. */
  lemma SameSize<T>(a: set<T>, b: set<T>)
    requires a <= b && |a| == |b|
    ensures a == b
  {
    var extra := b - a;
    assert b == a + extra;
    assert |extra| == 0;
  }

  class LRUCache {
    const capacity: int
    var start: Node?
    var end: Node?
    var cache: map<int, Node>
    ghost var nodes: seq<Node>
    ghost var Repr: set<Node>
    ghost var contents: seq<Entry>

    /** `nodes` is a well-formed doubly linked list from `start` to `end`. */
    ghost predicate Linked()
      reads this`nodes, this`Repr, this`start, this`end, Repr`left, Repr`right
    {
      (forall m :: 0 <= m < |nodes| ==> nodes[m] in Repr) &&
      (nodes == [] ==> start == null && end == null) &&
      (nodes != [] ==> start == nodes[0] && end == nodes[|nodes| - 1]) &&
      (nodes != [] ==> nodes[0].left == null && nodes[|nodes| - 1].right == null) &&
      (forall m {:trigger nodes[m].left} :: 0 < m < |nodes| ==> nodes[m].left == nodes[m - 1]) &&
      (forall m {:trigger nodes[m].right} :: 0 <= m < |nodes| - 1 ==> nodes[m].right == nodes[m + 1])
    }

    /** Following `right` links from a node never comes back to it: no node
        is listed twice. */
    lemma {:induction false} Acyclic(a: nat, b: nat)
      requires Linked() && a < b < |nodes|
      ensures nodes[a] != nodes[b]
      decreases |nodes| - b
    {
      assert nodes[a].right == nodes[a + 1];
      if b < |nodes| - 1 {
        Acyclic(a + 1, b + 1);
        assert nodes[b].right == nodes[b + 1];
      }
    }

    lemma DistinctFrom(j: nat)
      requires Linked() && j < |nodes|
      ensures forall m :: 0 <= m < |nodes| && m != j ==> nodes[m] != nodes[j]
    {
      forall m | 0 <= m < |nodes| && m != j ensures nodes[m] != nodes[j] {
        if m < j { Acyclic(m, j); } else { Acyclic(j, m); }
      }
    }

    /** The list holds the entries `e`, in order. */
    ghost predicate Mirrors(e: seq<Entry>)
      reads this`nodes, this`Repr, Repr`value
    {
      |e| == |nodes| &&
      forall m :: 0 <= m < |nodes| ==> nodes[m] in Repr && e[m] == Entry(nodes[m].key, nodes[m].value)
    }

    /** The list holds the entries `e`, in order, except perhaps at
        position `i`. */
    ghost predicate MirrorsExcept(e: seq<Entry>, i: int)
      reads this`nodes, this`Repr, Repr`value
    {
      |e| == |nodes| &&
      forall m :: 0 <= m < |nodes| && m != i ==> nodes[m] in Repr && e[m] == Entry(nodes[m].key, nodes[m].value)
    }

    /** Every listed node is the map's node for its key, and the map holds
        as many keys as the list holds nodes. */
    ghost predicate Indexed()
      reads this`nodes, this`cache
    {
      (forall m :: 0 <= m < |nodes| ==> nodes[m].key in cache && cache[nodes[m].key] == nodes[m]) &&
      |cache| == |nodes|
    }

    /** The list, the map and the abstract entries agree, and the entries
        keep the invariant of the cache. */
    ghost predicate Valid()
      reads this, Repr
    {
      Linked() && Mirrors(contents) && Indexed() && Inv(contents, capacity)
    }

    /** A new, empty cache. */
    constructor (capacity: int)
      ensures Valid() && this.capacity == capacity && contents == [] && fresh(Repr)
    {
      this.capacity := capacity;
      start := null;
      end := null;
      cache := map[];
      nodes := [];
      Repr := {};
      contents := [];
    }

    /** Unlinks the node at position `i`; the node's own links are left as
        they are. */
    method RemoveNode(node: Node, ghost i: nat, ghost e: seq<Entry>)
      requires Linked() && i < |nodes| && nodes[i] == node && MirrorsExcept(e, i)
      modifies this`start, this`end, this`nodes, Repr`left, Repr`right
      ensures Linked() && Mirrors(RemoveAt(e, i))
      ensures nodes == RemoveAt(old(nodes), i)
      ensures forall m :: 0 <= m < |nodes| ==> nodes[m] != node
      ensures cache == old(cache) && contents == old(contents)
    {
      DistinctFrom(i);
      if i > 0 { DistinctFrom(i - 1); }
      if i < |nodes| - 1 { DistinctFrom(i + 1); }
      ghost var before := nodes;
      ghost var after := RemoveAt(nodes, i);
      ghost var l := if i == 0 then null else nodes[i - 1];
      ghost var r := if i == |nodes| - 1 then null else nodes[i + 1];
      assert nodes[i].left == l && nodes[i].right == r;
      if node.left != null {
        node.left.right := node.right;
      } else {
        start := node.right;
      }
      if node.right != null {
        node.right.left := node.left;
      } else {
        end := node.left;
      }
      nodes := after;
      forall m | 0 < m < |after|
        ensures after[m].left == after[m - 1]
      {
        if m < i {
          assert after[m] == before[m] && after[m - 1] == before[m - 1];
          assert before[m] != r;
        } else if m == i {
          assert after[m] == r && after[m - 1] == l;
        } else {
          assert after[m] == before[m + 1] && after[m - 1] == before[m];
          assert before[m + 1] != r;
        }
      }
      forall m | 0 <= m < |after| - 1
        ensures after[m].right == after[m + 1]
      {
        if m + 1 < i {
          assert after[m] == before[m] && after[m + 1] == before[m + 1];
          assert before[m] != l;
        } else if m + 1 == i {
          assert after[m] == l && after[m + 1] == r;
        } else {
          assert after[m] == before[m + 1] && after[m + 1] == before[m + 2];
          assert before[m + 1] != l;
        }
      }
      forall m | 0 <= m < |after|
        ensures RemoveAt(e, i)[m] == Entry(after[m].key, after[m].value)
      {
        if m < i {
          assert after[m] == before[m];
        } else {
          assert after[m] == before[m + 1];
        }
      }
    }

    /** Links `node` in front of `start`. */
    method AddAtTop(node: Node, ghost e: seq<Entry>)
      requires Linked() && Mirrors(e)
      requires forall m :: 0 <= m < |nodes| ==> nodes[m] != node
      modifies this`start, this`end, this`nodes, this`Repr, node`left, node`right, Repr`left
      ensures Linked() && Mirrors([Entry(node.key, node.value)] + e)
      ensures nodes == [node] + old(nodes) && Repr == old(Repr) + {node}
      ensures cache == old(cache) && contents == old(contents)
    {
      assert start == (if nodes == [] then null else nodes[0]);
      node.right := start;
      node.left := null;
      if start != null {
        start.left := node;
      }
      start := node;
      if end == null {
        end := start;
      }
      ghost var before := nodes;
      nodes := [node] + nodes;
      Repr := Repr + {node};
      forall m | 0 < m < |nodes| - 1
        ensures nodes[m].right == nodes[m + 1]
      {
        assert nodes[m] == before[m - 1] && nodes[m + 1] == before[m];
      }
      forall m | 0 < m < |nodes|
        ensures ([Entry(node.key, node.value)] + e)[m] == Entry(nodes[m].key, nodes[m].value)
      {
        assert nodes[m] == before[m - 1];
      }
    }

    /** `remove_node` followed by `add_at_top`, as both `get` and `put` do
        for a cached key: the node at position `i` moves to the front. */
    method MoveToTop(node: Node, ghost i: nat, ghost e: seq<Entry>)
      requires Linked() && i < |nodes| && nodes[i] == node && MirrorsExcept(e, i)
      modifies this`start, this`end, this`nodes, this`Repr, Repr`left, Repr`right
      ensures Linked() && Mirrors([Entry(node.key, node.value)] + RemoveAt(e, i))
      ensures nodes == [node] + RemoveAt(old(nodes), i) && Repr == old(Repr)
      ensures cache == old(cache) && contents == old(contents)
    {
      RemoveNode(node, i, e);
      AddAtTop(node, RemoveAt(e, i));
    }

    /** The map holds exactly the keys of the entries. */
    lemma CacheKeys()
      requires Mirrors(contents) && Indexed() && DistinctKeys(contents)
      ensures cache.Keys == KeySet(contents)
    {
      var ks := KeySet(contents);
      forall k | k in ks ensures k in cache {
        var m :| 0 <= m < |contents| && contents[m].key == k;
        assert nodes[m].key == k;
      }
      KeySetSize(contents);
      assert |cache.Keys| == |cache|;
      SameSize(ks, cache.Keys);
    }

    /** A key the map does not hold is the key of no entry. */
    lemma NotCached(key: int)
      requires Mirrors(contents) && Indexed() && key !in cache
      ensures key !in KeySet(contents)
    {
      forall m | 0 <= m < |contents| ensures contents[m].key != key {
        assert nodes[m].key in cache;
      }
    }

    /** A cached key is the key of the entry at its position in `contents`,
        and the map's node for it is the list's node there. */
    lemma NodeOf(key: int)
      requires Mirrors(contents) && Indexed() && DistinctKeys(contents) && key in cache
      ensures key in KeySet(contents)
      ensures IndexOf(contents, key) < |nodes| && cache[key] == nodes[IndexOf(contents, key)]
    {
      CacheKeys();
      var i := IndexOf(contents, key);
      assert nodes[i].key == key;
    }

    /** Once a hit has moved the node at position `i` of the old list `ns`
        to the front, the cache is valid again, holding what `put` of that
        key and the node's value yields. */
    lemma Moved(s: seq<Entry>, ns: seq<Node>, i: nat)
      requires Linked() && Mirrors(contents)
      requires i < |s| == |ns| == |cache| && Inv(s, capacity)
      requires forall m :: 0 <= m < |ns| ==> ns[m].key in cache && cache[ns[m].key] == ns[m]
      requires nodes == [ns[i]] + RemoveAt(ns, i)
      requires contents == [Entry(s[i].key, ns[i].value)] + RemoveAt(s, i)
      ensures Valid() && contents == AfterPut(s, capacity, s[i].key, ns[i].value)
    {
      var k, v := s[i].key, ns[i].value;
      IndexOfUnique(s, k, i);
      PutInv(s, capacity, k, v);
      forall m | 0 < m < |nodes| ensures nodes[m].key in cache && cache[nodes[m].key] == nodes[m] {
        assert nodes[m] == RemoveAt(ns, i)[m - 1];
      }
    }

    /** Once the last node of the old list `ns` has been unlinked and its
        key dropped from the old map `c0`, the cache is valid again, holding
        the old entries `s` less the last one. */
    lemma Dropped(s: seq<Entry>, ns: seq<Node>, c0: map<int, Node>)
      requires Linked() && Mirrors(contents) && Inv(s, capacity) && s != []
      requires |s| == |ns| == |c0| && ns[|ns| - 1].key == s[|s| - 1].key
      requires forall m :: 0 <= m < |ns| ==> ns[m].key in c0 && c0[ns[m].key] == ns[m]
      requires nodes == ns[..|ns| - 1] && contents == s[..|s| - 1] && cache == c0 - {s[|s| - 1].key}
      ensures Valid()
    {
      var last := s[|s| - 1].key;
      DistinctKeysSub(s, 0, |s| - 1);
      forall m | 0 <= m < |nodes| ensures nodes[m].key in cache && cache[nodes[m].key] == nodes[m] {
        assert nodes[m] == ns[m] && nodes[m].key == s[m].key;
        assert s[m].key != last;
      }
      assert |c0 - {last}| == |c0| - 1 by {
        assert (c0 - {last}).Keys == c0.Keys - {last};
      }
    }

    /** Once a new `node` holding `v` has been put in front of the old list
        `ns` of a cache with room, and the old map `c0` has gained its key,
        the cache is valid again. */
    lemma Prepended(s: seq<Entry>, ns: seq<Node>, c0: map<int, Node>, node: Node, v: int)
      requires Linked() && Mirrors(contents) && Inv(s, capacity) && |s| < capacity
      requires |s| == |ns| == |c0| && node.key !in c0
      requires forall m :: 0 <= m < |ns| ==> ns[m].key in c0 && c0[ns[m].key] == ns[m]
      requires nodes == [node] + ns && contents == [Entry(node.key, v)] + s
      requires cache == c0[node.key := node]
      ensures Valid()
    {
      var k := node.key;
      assert k !in KeySet(s) by {
        forall m | 0 <= m < |s| ensures s[m].key != k {
          assert nodes[m + 1] == ns[m] && nodes[m + 1].key == s[m].key;
        }
      }
      PutFresh(s, capacity, k, v);
      PutInv(s, capacity, k, v);
      forall m | 0 < m < |nodes| ensures nodes[m].key in cache && cache[nodes[m].key] == nodes[m] {
        assert nodes[m] == ns[m - 1];
      }
    }

    /** `get`: the value of a cached key, which becomes the most recently
        used; `Miss` and no change for any other key. */
    method Get(key: int) returns (r: int)
      requires Valid()
      modifies this, Repr
      ensures Valid()
      ensures r == Lookup(old(contents), key)
      ensures contents == AfterGet(old(contents), key)
      ensures key !in old(cache) ==> r == Miss && nodes == old(nodes) && cache == old(cache)
      ensures Repr == old(Repr)
    {
      if key in cache {
        var node := cache[key];
        ghost var s, ns := contents, nodes;
        NodeOf(key);
        ghost var i := IndexOf(s, key);
        assert s[i] == Entry(key, node.value);
        contents := [s[i]] + RemoveAt(s, i);
        MoveToTop(node, i, s);
        r := node.value;
        Moved(s, ns, i);
      } else {
        NotCached(key);
        GetMiss(contents, key);
        r := Miss;
      }
    }

    /** `put`: stores `value` under `key` as the most recently used entry;
        a new key in a full cache first evicts the `end` entry. A cache
        with no room at all (capacity 0 or less) is excluded: there `end`
        is null when the first key arrives. */
    method Put(key: int, value: int)
      requires Valid() && capacity >= 1
      modifies this, Repr
      ensures Valid()
      ensures contents == AfterPut(old(contents), capacity, key, value)
      ensures fresh(Repr - old(Repr))
    {
      if key in cache {
        Refresh(key, value);
      } else {
        Insert(key, value);
      }
    }

    /** The branch of `put` for a cached key: the node takes the new value
        and moves to the front. */
    method Refresh(key: int, value: int)
      requires Valid() && capacity >= 1 && key in cache
      modifies this, Repr
      ensures Valid() && Repr == old(Repr)
      ensures contents == AfterPut(old(contents), capacity, key, value)
    {
      ghost var s, ns := contents, nodes;
      var node := cache[key];
      NodeOf(key);
      ghost var i := IndexOf(s, key);
      DistinctFrom(i);
      node.value := value;
      contents := [Entry(key, value)] + RemoveAt(s, i);
      assert MirrorsExcept(s, i) by {
        forall m | 0 <= m < |nodes| && m != i ensures s[m] == Entry(nodes[m].key, nodes[m].value) {
          assert nodes[m] != node;
        }
      }
      MoveToTop(node, i, s);
      Moved(s, ns, i);
    }

    /** The branch of `put` for a new key: a new node is admitted at the
        front, after an eviction when the cache is full. */
    method Insert(key: int, value: int)
      requires Valid() && capacity >= 1 && key !in cache
      modifies this, Repr
      ensures Valid()
      ensures contents == AfterPut(old(contents), capacity, key, value)
      ensures fresh(Repr - old(Repr))
    {
      NotCached(key);
      var node := new Node(key, value);
      if |cache| >= capacity {
        Evict();
      }
      Admit(node);
    }

    /** Links a new `node` at the front and enters it in the map under its
        key, in a cache with room for it. */
    method Admit(node: Node)
      requires Valid() && |contents| < capacity && node.key !in cache && node !in Repr
      modifies this, Repr, node
      ensures Valid() && contents == [Entry(node.key, old(node.value))] + old(contents)
      ensures Repr == old(Repr) + {node}
    {
      ghost var s, ns, c0 := contents, nodes, cache;
      contents := [Entry(node.key, node.value)] + s;
      AddAtTop(node, s);
      cache := cache[node.key := node];
      Prepended(s, ns, c0, node, node.value);
    }

    /** The eviction of `put`: the key of the `end` entry, the least
        recently used, leaves the map and its node is unlinked. */
    method Evict()
      requires Valid() && contents != []
      modifies this, Repr
      ensures Valid() && Repr == old(Repr)
      ensures contents == old(contents)[..|old(contents)| - 1] && nodes == old(nodes)[..|old(nodes)| - 1]
      ensures cache == old(cache) - {old(contents)[|old(contents)| - 1].key}
    {
      ghost var s, ns, c0 := contents, nodes, cache;
      ghost var last := |nodes| - 1;
      assert end == ns[last] && end.key == s[last].key;
      cache := cache - {end.key};
      contents := s[..last];
      RemoveNode(end, last, s);
      RemoveLast(s);
      RemoveLast(ns);
      Dropped(s, ns, c0);
    }
  }

  /** The script of lru.py on a cache of capacity 4: the value written
      last under key 10 is read back, and keys 1 and 15, the least
      recently used when 18 and 13 arrive, are gone. */
  method ScriptFour() returns (ten: int, one: int, fifteen: int)
    ensures ten == 16 && one == Miss && fifteen == Miss
  {
    var lru := new LRUCache(4);
    FillFour(lru);
    ten := UpdateFour(lru);
    OverflowFour(lru);
    one, fifteen := ProbeFour(lru);
  }

  /** The first three `put`s of the capacity-4 script, all of new keys. */
  method FillFour(lru: LRUCache)
    requires lru.Valid() && lru.capacity == 4 && lru.contents == []
    modifies lru, lru.Repr
    ensures lru.Valid() && lru.contents == [Entry(15, 10), Entry(10, 15), Entry(1, 1)]
    ensures fresh(lru.Repr - old(lru.Repr))
  {
    TraceFourFill();
    lru.Put(1, 1);
    assert fresh(lru.Repr - old(lru.Repr));
    assert lru.contents == [Entry(1, 1)];
    lru.Put(10, 15);
    assert fresh(lru.Repr - old(lru.Repr));
    assert lru.contents == [Entry(10, 15), Entry(1, 1)];
    lru.Put(15, 10);
  }

  /** The `put` of the capacity-4 script that overwrites key 10, which
      moves to the front, and the `get` that reads it back. */
  method UpdateFour(lru: LRUCache) returns (ten: int)
    requires lru.Valid() && lru.capacity == 4
    requires lru.contents == [Entry(15, 10), Entry(10, 15), Entry(1, 1)]
    modifies lru, lru.Repr
    ensures ten == 16
    ensures lru.Valid() && lru.contents == [Entry(10, 16), Entry(15, 10), Entry(1, 1)]
    ensures fresh(lru.Repr - old(lru.Repr))
  {
    TraceFourUpdate();
    lru.Put(10, 16);
    ten := lru.Get(10);
  }

  /** The last three `put`s of the capacity-4 script: the cache fills up,
      then evicts 1 and 15. */
  method OverflowFour(lru: LRUCache)
    requires lru.Valid() && lru.capacity == 4
    requires lru.contents == [Entry(10, 16), Entry(15, 10), Entry(1, 1)]
    modifies lru, lru.Repr
    ensures lru.Valid() && lru.contents == [Entry(13, 16), Entry(18, 10), Entry(12, 15), Entry(10, 16)]
    ensures fresh(lru.Repr - old(lru.Repr))
  {
    TraceFourEvict();
    lru.Put(12, 15);
    assert fresh(lru.Repr - old(lru.Repr));
    assert lru.contents == [Entry(12, 15), Entry(10, 16), Entry(15, 10), Entry(1, 1)];
    lru.Put(18, 10);
    assert fresh(lru.Repr - old(lru.Repr));
    assert lru.contents == [Entry(18, 10), Entry(12, 15), Entry(10, 16), Entry(15, 10)];
    lru.Put(13, 16);
  }

  /** The two `get`s that end the capacity-4 script, both of evicted keys. */
  method ProbeFour(lru: LRUCache) returns (one: int, fifteen: int)
    requires lru.Valid() && lru.capacity == 4
    requires lru.contents == [Entry(13, 16), Entry(18, 10), Entry(12, 15), Entry(10, 16)]
    modifies lru, lru.Repr
    ensures one == Miss && fifteen == Miss
  {
    TraceFourEvict();
    one := lru.Get(1);
    fifteen := lru.Get(15);
  }

  /** The capacity-1 scenario: each new key evicts the previous one. */
  method ScriptOne() returns (first: int, evicted: int, second: int)
    ensures first == 1 && evicted == Miss && second == 2
  {
    TraceOne();
    var lru := new LRUCache(1);
    lru.Put(2, 1);
    assert lru.contents == [Entry(2, 1)];
    first := lru.Get(2);
    lru.Put(3, 2);
    assert lru.contents == [Entry(3, 2)];
    evicted := lru.Get(2);
    second := lru.Get(3);
  }

  /** The capacity-2 scenario: a second `put` of key 2 overwrites its
      value, and two newer keys then evict it. */
  method ScriptTwo() returns (updated: int, evicted: int)
    ensures updated == 2 && evicted == Miss
  {
    var lru := new LRUCache(2);
    updated := UpdateTwo(lru);
    evicted := EvictTwo(lru);
  }

  /** The first half of the capacity-2 scenario: key 2 written twice and
      read back. */
  method UpdateTwo(lru: LRUCache) returns (updated: int)
    requires lru.Valid() && lru.capacity == 2 && lru.contents == []
    modifies lru, lru.Repr
    ensures updated == 2
    ensures lru.Valid() && lru.contents == [Entry(2, 2)]
    ensures fresh(lru.Repr - old(lru.Repr))
  {
    TraceTwo();
    lru.Put(2, 1);
    assert fresh(lru.Repr - old(lru.Repr));
    assert lru.contents == [Entry(2, 1)];
    lru.Put(2, 2);
    updated := lru.Get(2);
  }

  /** The second half: two new keys fill the cache and push key 2 out. */
  method EvictTwo(lru: LRUCache) returns (evicted: int)
    requires lru.Valid() && lru.capacity == 2 && lru.contents == [Entry(2, 2)]
    modifies lru, lru.Repr
    ensures evicted == Miss
  {
    TraceTwo();
    lru.Put(1, 1);
    assert lru.contents == [Entry(1, 1), Entry(2, 2)];
    lru.Put(4, 1);
    evicted := lru.Get(2);
  }
}
