/** What the LRU cache of lru.py means, stated on values: the cache is the
    list of its entries from the most recently used (`start`) to the least
    recently used (`end`). `get` and `put` are functions on that list; the
    class in module `Lru` is proved to follow them. */
module LruSpec {

  datatype Entry = Entry(key: int, value: int)

  /** The sentinel `get` returns for a key that is not cached. */
  const Miss: int := -1

  function Keys(s: seq<Entry>): (ks: seq<int>)
    ensures |ks| == |s| && forall m :: 0 <= m < |s| ==> ks[m] == s[m].key
  {
    seq(|s|, m requires 0 <= m < |s| => s[m].key)
  }

  function KeySet(s: seq<Entry>): set<int>
  {
    set m | 0 <= m < |s| :: s[m].key
  }

  predicate DistinctKeys(s: seq<Entry>)
  {
    forall a, b {:trigger s[a].key, s[b].key} :: 0 <= a < b < |s| ==> s[a].key != s[b].key
  }

  /** The abstract invariant: no key twice, and no more entries than the
      capacity (a cache with capacity 0 or less can only be empty). */
  predicate Inv(s: seq<Entry>, capacity: int)
  {
    DistinctKeys(s) && (|s| <= capacity || s == [])
  }

  /** Position of the first entry with key `k`. */
  function IndexOf(s: seq<Entry>, k: int): (i: nat)
    requires k in KeySet(s)
    ensures i < |s| && s[i].key == k
    ensures forall m :: 0 <= m < i ==> s[m].key != k
  {
    if s[0].key == k then 0
    else
      assert k in KeySet(s[1..]) by {
        var m :| 0 <= m < |s| && s[m].key == k;
        assert s[1..][m - 1].key == k;
      }
      1 + IndexOf(s[1..], k)
  }

  /** The list without the entry for `k`, other entries in their order. */
  function Without(s: seq<Entry>, k: int): (r: seq<Entry>)
    ensures KeySet(r) == KeySet(s) - {k}
  {
    if s == [] then []
    else
      var r := (if s[0].key == k then [] else [s[0]]) + Without(s[1..], k);
      assert KeySet(s) == {s[0].key} + KeySet(s[1..]) by {
        forall x | x in KeySet(s) ensures x in {s[0].key} + KeySet(s[1..]) {
          var m :| 0 <= m < |s| && s[m].key == x;
          if m > 0 { assert s[1..][m - 1].key == x; }
        }
      }
      assert KeySet(r) == (if s[0].key == k then {} else {s[0].key}) + KeySet(Without(s[1..], k)) by {
        var head: seq<Entry> := if s[0].key == k then [] else [s[0]];
        var tail := Without(s[1..], k);
        forall x | x in KeySet(r)
          ensures x in (if s[0].key == k then {} else {s[0].key}) + KeySet(tail)
        {
          var m :| 0 <= m < |r| && r[m].key == x;
          if m >= |head| { assert tail[m - |head|].key == x; }
        }
        forall x | x in KeySet(tail) ensures x in KeySet(r) {
          var m :| 0 <= m < |tail| && tail[m].key == x;
          assert r[|head| + m].key == x;
        }
        if s[0].key != k { assert r[0].key == s[0].key; }
      }
      r
  }

  /** `s` without its element at position `i`, the others in order. */
  function RemoveAt<T>(s: seq<T>, i: nat): (r: seq<T>)
    requires i < |s|
    ensures |r| == |s| - 1
    ensures forall m {:trigger r[m]} :: 0 <= m < |r| ==> r[m] == if m < i then s[m] else s[m + 1]
  {
    seq(|s| - 1, m requires 0 <= m < |s| - 1 => if m < i then s[m] else s[m + 1])
  }

  /** The lookup of `get`: the value stored for `k`, or `Miss`. */
  function Lookup(s: seq<Entry>, k: int): int
  {
    if k in KeySet(s) then s[IndexOf(s, k)].value else Miss
  }

  /** The list after `get(k)`: a hit moves its entry to the front. */
  function AfterGet(s: seq<Entry>, k: int): seq<Entry>
  {
    if k in KeySet(s) then
      var i := IndexOf(s, k);
      [s[i]] + RemoveAt(s, i)
    else s
  }

  /** The list after `put(k, v)`. A known key is updated and moved to the
      front; a new key goes to the front, after the last entry is evicted
      when the cache already holds `capacity` entries. `capacity >= 1` is
      what the source needs: with less, the eviction branch reads the key
      of an empty list's `end`. */
  function AfterPut(s: seq<Entry>, capacity: int, k: int, v: int): seq<Entry>
    requires capacity >= 1
  {
    if k in KeySet(s) then
      var i := IndexOf(s, k);
      [Entry(k, v)] + RemoveAt(s, i)
    else if |s| >= capacity then [Entry(k, v)] + s[..|s| - 1]
    else [Entry(k, v)] + s
  }

  // ---------------------------------------------------------------------
  // Basic facts
  // ---------------------------------------------------------------------

  /** With distinct keys, the entry with key `k` is the only one. */
  lemma IndexOfUnique(s: seq<Entry>, k: int, i: nat)
    requires DistinctKeys(s) && i < |s| && s[i].key == k
    ensures k in KeySet(s) && IndexOf(s, k) == i
  {
    assert s[i].key in KeySet(s);
  }

  /** With distinct keys there are as many keys as entries. */
  lemma {:induction false} KeySetSize(s: seq<Entry>)
    requires DistinctKeys(s)
    ensures |KeySet(s)| == |s|
  {
    if s != [] {
      var last := s[|s| - 1];
      var init := s[..|s| - 1];
      assert KeySet(s) == KeySet(init) + {last.key} by {
        forall x | x in KeySet(s) ensures x in KeySet(init) + {last.key} {
          var m :| 0 <= m < |s| && s[m].key == x;
          if m < |s| - 1 { assert init[m].key == x; }
        }
        forall x | x in KeySet(init) ensures x in KeySet(s) {
          var m :| 0 <= m < |init| && init[m].key == x;
          assert s[m].key == x;
        }
      }
      assert last.key !in KeySet(init);
      KeySetSize(init);
    }
  }

  /** Removing the entry at `i` is removing the entry for its key. */
  lemma {:induction false} RemoveAtIsWithout(s: seq<Entry>, i: nat)
    requires DistinctKeys(s) && i < |s|
    ensures RemoveAt(s, i) == Without(s, s[i].key)
  {
    var k := s[i].key;
    if i == 0 {
      WithoutAbsent(s[1..], k);
      assert RemoveAt(s, 0) == s[1..];
    } else {
      assert DistinctKeys(s[1..]);
      RemoveAtIsWithout(s[1..], i - 1);
      assert s[1..][i - 1].key == k;
      assert RemoveAt(s, i) == [s[0]] + RemoveAt(s[1..], i - 1);
    }
  }

  /** Removing the last entry is taking all but the last. */
  lemma RemoveLast<T>(s: seq<T>)
    requires s != []
    ensures RemoveAt(s, |s| - 1) == s[..|s| - 1]
  {
  }

  /** Removing a key that is not there changes nothing. */
  lemma {:induction false} WithoutAbsent(s: seq<Entry>, k: int)
    requires forall m :: 0 <= m < |s| ==> s[m].key != k
    ensures Without(s, k) == s
  {
    if s != [] {
      WithoutAbsent(s[1..], k);
    }
  }

  lemma KeySetCons(e: Entry, s: seq<Entry>)
    ensures KeySet([e] + s) == {e.key} + KeySet(s)
  {
    var r := [e] + s;
    forall x | x in KeySet(r) ensures x in {e.key} + KeySet(s) {
      var m :| 0 <= m < |r| && r[m].key == x;
      if m > 0 { assert s[m - 1].key == x; }
    }
    forall x | x in KeySet(s) ensures x in KeySet(r) {
      var m :| 0 <= m < |s| && s[m].key == x;
      assert r[m + 1].key == x;
    }
    assert r[0].key == e.key;
  }

  lemma KeysCons(e: Entry, s: seq<Entry>)
    ensures Keys([e] + s) == [e.key] + Keys(s)
  {
    assert forall m :: 0 < m <= |s| ==> ([e] + s)[m] == s[m - 1];
  }

  lemma DistinctKeysSub(s: seq<Entry>, lo: nat, hi: nat)
    requires DistinctKeys(s) && lo <= hi <= |s|
    ensures DistinctKeys(s[lo..hi])
  {
  }

  // ---------------------------------------------------------------------
  // get
  // ---------------------------------------------------------------------

  /** A miss returns the sentinel and changes nothing. */
  lemma GetMiss(s: seq<Entry>, k: int)
    requires k !in KeySet(s)
    ensures Lookup(s, k) == Miss && AfterGet(s, k) == s
  {
  }

  /** A hit returns the stored value, puts the entry at the front, and keeps
      the other entries in their relative order. */
  lemma GetHit(s: seq<Entry>, k: int, i: nat)
    requires DistinctKeys(s) && i < |s| && s[i].key == k
    ensures Lookup(s, k) == s[i].value
    ensures AfterGet(s, k) == [s[i]] + Without(s, k)
    ensures KeySet(AfterGet(s, k)) == KeySet(s)
  {
    IndexOfUnique(s, k, i);
    RemoveAtIsWithout(s, i);
    assert KeySet([s[i]] + Without(s, k)) == KeySet(s) by {
      var r := [s[i]] + Without(s, k);
      forall x | x in KeySet(r) ensures x in KeySet(s) {
        var m :| 0 <= m < |r| && r[m].key == x;
        if m > 0 { assert Without(s, k)[m - 1].key == x; }
      }
      forall x | x in KeySet(s) ensures x in KeySet(r) {
        if x == k { assert r[0].key == x; }
        else {
          assert x in KeySet(Without(s, k));
          var m :| 0 <= m < |Without(s, k)| && Without(s, k)[m].key == x;
          assert r[m + 1].key == x;
        }
      }
    }
  }

  /** `get` keeps the invariant. */
  lemma GetInv(s: seq<Entry>, capacity: int, k: int)
    requires Inv(s, capacity)
    ensures Inv(AfterGet(s, k), capacity)
  {
    if k in KeySet(s) {
      var i := IndexOf(s, k);
      var w := RemoveAt(s, i);
      var r := [s[i]] + w;
      forall a, b | 0 <= a < b < |r| ensures r[a].key != r[b].key {
        var sb := if b - 1 < i then b - 1 else b;
        assert r[b] == w[b - 1] == s[sb];
        if a == 0 {
          assert r[a] == s[i];
        } else {
          var sa := if a - 1 < i then a - 1 else a;
          assert r[a] == w[a - 1] == s[sa];
        }
      }
      assert r == AfterGet(s, k);
    }
  }

  // ---------------------------------------------------------------------
  // put
  // ---------------------------------------------------------------------

  /** Updating a key: the new value is at the front, the other entries keep
      their order, and neither the key set nor the size changes. */
  lemma PutExisting(s: seq<Entry>, capacity: int, k: int, v: int)
    requires capacity >= 1 && DistinctKeys(s) && k in KeySet(s)
    ensures AfterPut(s, capacity, k, v) == [Entry(k, v)] + Without(s, k)
    ensures KeySet(AfterPut(s, capacity, k, v)) == KeySet(s)
    ensures |AfterPut(s, capacity, k, v)| == |s|
  {
    var i := IndexOf(s, k);
    RemoveAtIsWithout(s, i);
    KeySetCons(Entry(k, v), Without(s, k));
  }

  /** Inserting into a full cache evicts exactly the last (least recently
      used) entry and puts the new one at the front. */
  lemma PutEvicts(s: seq<Entry>, capacity: int, k: int, v: int)
    requires capacity >= 1 && DistinctKeys(s) && k !in KeySet(s) && |s| >= capacity
    ensures AfterPut(s, capacity, k, v) == [Entry(k, v)] + Without(s, s[|s| - 1].key)
    ensures s[|s| - 1].key !in KeySet(AfterPut(s, capacity, k, v))
    ensures KeySet(AfterPut(s, capacity, k, v)) == KeySet(s) - {s[|s| - 1].key} + {k}
    ensures |AfterPut(s, capacity, k, v)| == |s|
  {
    var n := |s|;
    RemoveAtIsWithout(s, n - 1);
    RemoveLast(s);
    var w := Without(s, s[n - 1].key);
    var r := [Entry(k, v)] + w;
    assert KeySet(r) == KeySet(w) + {k} by {
      forall x | x in KeySet(r) ensures x in KeySet(w) + {k} {
        var m :| 0 <= m < |r| && r[m].key == x;
        if m > 0 { assert w[m - 1].key == x; }
      }
      forall x | x in KeySet(w) ensures x in KeySet(r) {
        var m :| 0 <= m < |w| && w[m].key == x;
        assert r[m + 1].key == x;
      }
      assert r[0].key == k;
    }
  }

  /** Inserting into a cache that is not full adds the entry at the front. */
  lemma PutFresh(s: seq<Entry>, capacity: int, k: int, v: int)
    requires capacity >= 1 && k !in KeySet(s) && |s| < capacity
    ensures AfterPut(s, capacity, k, v) == [Entry(k, v)] + s
    ensures KeySet(AfterPut(s, capacity, k, v)) == KeySet(s) + {k}
  {
    var r := [Entry(k, v)] + s;
    forall x | x in KeySet(r) ensures x in KeySet(s) + {k} {
      var m :| 0 <= m < |r| && r[m].key == x;
      if m > 0 { assert s[m - 1].key == x; }
    }
    forall x | x in KeySet(s) ensures x in KeySet(r) {
      var m :| 0 <= m < |s| && s[m].key == x;
      assert r[m + 1].key == x;
    }
    assert r[0].key == k;
  }

  /** `put` keeps the invariant: keys stay distinct and the size never
      exceeds the capacity. */
  lemma PutInv(s: seq<Entry>, capacity: int, k: int, v: int)
    requires capacity >= 1 && Inv(s, capacity)
    ensures Inv(AfterPut(s, capacity, k, v), capacity)
    ensures |AfterPut(s, capacity, k, v)| <= capacity
  {
    var r := AfterPut(s, capacity, k, v);
    if k in KeySet(s) {
      PutExisting(s, capacity, k, v);
      var w := Without(s, k);
      assert DistinctKeys(w) by {
        var i := IndexOf(s, k);
        RemoveAtIsWithout(s, i);
        forall a, b | 0 <= a < b < |w| ensures w[a].key != w[b].key {
          var sa := if a < i then a else a + 1;
          var sb := if b < i then b else b + 1;
          assert w[a] == s[sa] && w[b] == s[sb];
        }
      }
      assert k !in KeySet(w);
      forall a, b | 0 <= a < b < |r| ensures r[a].key != r[b].key {
        if a == 0 { assert r[b] == w[b - 1]; assert w[b - 1].key in KeySet(w); }
        else { assert r[a] == w[a - 1] && r[b] == w[b - 1]; }
      }
    } else {
      forall a, b | 0 <= a < b < |r| ensures r[a].key != r[b].key {
        if a == 0 { assert r[b] == s[b - 1]; assert s[b - 1].key in KeySet(s); }
        else { assert r[a] == s[a - 1] && r[b] == s[b - 1]; }
      }
    }
  }

  /** A value just put is what `get` returns next. */
  lemma PutThenGet(s: seq<Entry>, capacity: int, k: int, v: int)
    requires capacity >= 1
    ensures Lookup(AfterPut(s, capacity, k, v), k) == v
  {
    var r := AfterPut(s, capacity, k, v);
    assert r[0] == Entry(k, v);
    IndexOfFirst(r, k);
  }

  lemma IndexOfFirst(s: seq<Entry>, k: int)
    requires s != [] && s[0].key == k
    ensures k in KeySet(s) && IndexOf(s, k) == 0
  {
    assert s[0].key in KeySet(s);
  }

  // ---------------------------------------------------------------------
  // Recency: the cache holds the most recently used keys, most recent first
  // ---------------------------------------------------------------------

  datatype Op = Get(key: int) | Put(key: int, value: int)

  function Apply(capacity: int, s: seq<Entry>, op: Op): seq<Entry>
    requires capacity >= 1
  {
    match op
    case Get(k) => AfterGet(s, k)
    case Put(k, v) => AfterPut(s, capacity, k, v)
  }

  /** The cache after a sequence of calls on a new cache. */
  function Replay(capacity: int, ops: seq<Op>): seq<Entry>
    requires capacity >= 1
  {
    if ops == [] then []
    else Apply(capacity, Replay(capacity, ops[..|ops| - 1]), ops[|ops| - 1])
  }

  /** The keys the calls used, oldest first: a `put` always uses its key, a
      `get` only when it hits. */
  function Uses(capacity: int, ops: seq<Op>): seq<int>
    requires capacity >= 1
  {
    if ops == [] then []
    else
      var before := Replay(capacity, ops[..|ops| - 1]);
      var op := ops[|ops| - 1];
      Uses(capacity, ops[..|ops| - 1]) + (if op.Put? || op.key in KeySet(before) then [op.key] else [])
  }

  /** `r` without `k`, other elements in their order. */
  function Remove(r: seq<int>, k: int): (t: seq<int>)
    ensures forall x :: x in t <==> x in r && x != k
    ensures |t| <= |r|
  {
    if r == [] then [] else (if r[0] == k then [] else [r[0]]) + Remove(r[1..], k)
  }

  /** The distinct keys of a use history, most recently used first. */
  function Recency(t: seq<int>): seq<int>
  {
    if t == [] then [] else [t[|t| - 1]] + Remove(Recency(t[..|t| - 1]), t[|t| - 1])
  }

  predicate Distinct(r: seq<int>)
  {
    forall a, b :: 0 <= a < b < |r| ==> r[a] != r[b]
  }

  lemma {:induction false} RemoveDistinct(r: seq<int>, k: int)
    requires Distinct(r)
    ensures Distinct(Remove(r, k))
  {
    if r != [] {
      RemoveDistinct(r[1..], k);
      var t := Remove(r[1..], k);
      if r[0] != k {
        assert r[0] !in t;
        assert forall b :: 0 <= b < |t| ==> ([r[0]] + t)[b + 1] == t[b];
      }
    }
  }

  lemma {:induction false} RecencyDistinct(t: seq<int>)
    ensures Distinct(Recency(t))
  {
    if t != [] {
      var k := t[|t| - 1];
      RecencyDistinct(t[..|t| - 1]);
      RemoveDistinct(Recency(t[..|t| - 1]), k);
      var rest := Remove(Recency(t[..|t| - 1]), k);
      assert k !in rest;
      assert forall b :: 0 <= b < |rest| ==> ([k] + rest)[b + 1] == rest[b];
    }
  }

  lemma {:induction false} RemoveAbsent(r: seq<int>, k: int)
    requires k !in r
    ensures Remove(r, k) == r
  {
    if r != [] {
      RemoveAbsent(r[1..], k);
    }
  }

  /** Removing a key absent from the first `n` elements keeps those. */
  lemma {:induction false} RemovePrefixAbsent(r: seq<int>, k: int, n: nat)
    requires n <= |r| && k !in r[..n]
    ensures n <= |Remove(r, k)| && Remove(r, k)[..n] == r[..n]
  {
    if n > 0 {
      assert r[0] == r[..n][0];
      assert r[1..][..n - 1] == r[..n][1..];
      RemovePrefixAbsent(r[1..], k, n - 1);
    }
  }

  /** Removing a key present among the first `n` distinct elements shifts the
      rest of the prefix by one. */
  lemma {:induction false} RemovePrefixPresent(r: seq<int>, k: int, n: nat)
    requires Distinct(r) && n <= |r| && k in r[..n]
    ensures n - 1 <= |Remove(r, k)| && Remove(r, k)[..n - 1] == Remove(r[..n], k)
  {
    if r[0] == k {
      assert k !in r[1..];
      RemoveAbsent(r[1..], k);
      assert k !in r[..n][1..];
      RemoveAbsent(r[..n][1..], k);
      assert r[..n][1..] == r[1..][..n - 1];
    } else {
      assert k in r[1..][..n - 1] by {
        var m :| 0 <= m < n && r[..n][m] == k;
        assert m > 0 && r[1..][..n - 1][m - 1] == k;
      }
      RemovePrefixPresent(r[1..], k, n - 1);
      assert r[..n][0] == r[0] && r[..n][1..] == r[1..][..n - 1];
    }
  }

  lemma {:induction false} KeysWithout(s: seq<Entry>, k: int)
    ensures Keys(Without(s, k)) == Remove(Keys(s), k)
  {
    if s != [] {
      KeysWithout(s[1..], k);
      assert Keys(s)[0] == s[0].key && Keys(s)[1..] == Keys(s[1..]);
      var head: seq<Entry> := if s[0].key == k then [] else [s[0]];
      assert Keys(head + Without(s[1..], k)) == Keys(head) + Keys(Without(s[1..], k));
    }
  }

  /** Every cache reached by calls on a new cache keeps the invariant. */
  lemma {:induction false} ReplayInv(capacity: int, ops: seq<Op>)
    requires capacity >= 1
    ensures Inv(Replay(capacity, ops), capacity)
  {
    if ops != [] {
      var before := Replay(capacity, ops[..|ops| - 1]);
      ReplayInv(capacity, ops[..|ops| - 1]);
      match ops[|ops| - 1]
      case Get(k) => GetInv(before, capacity, k);
      case Put(k, v) => PutInv(before, capacity, k, v);
    }
  }

  /** One call that uses `k` on a cache whose keys are the first `|s|`
      keys of the recency order `r`: afterwards the keys are the first ones
      of the new recency order `[k] + Remove(r, k)`. */
  lemma UseHit(s: seq<Entry>, r: seq<int>, k: int, after: seq<Entry>, e: Entry)
    requires DistinctKeys(s) && Distinct(r) && |s| <= |r| && Keys(s) == r[..|s|]
    requires k in KeySet(s) && e.key == k && after == [e] + Without(s, k)
    ensures |after| <= |[k] + Remove(r, k)| && Keys(after) == ([k] + Remove(r, k))[..|after|]
  {
    var n := |s|;
    var i := IndexOf(s, k);
    var w := Without(s, k);
    assert Keys(s)[i] == k;
    assert k in r[..n];
    RemovePrefixPresent(r, k, n);
    KeysWithout(s, k);
    RemoveAtIsWithout(s, i);
    assert |w| == n - 1;
    KeysCons(e, w);
  }

  lemma UseEvict(s: seq<Entry>, r: seq<int>, k: int, v: int)
    requires DistinctKeys(s) && |s| <= |r| && Keys(s) == r[..|s|]
    requires k !in KeySet(s) && s != []
    ensures var after := [Entry(k, v)] + s[..|s| - 1];
      |after| <= |[k] + Remove(r, k)| && Keys(after) == ([k] + Remove(r, k))[..|after|]
  {
    var n := |s|;
    var after := [Entry(k, v)] + s[..n - 1];
    var p := r[..n - 1];
    assert k !in p by {
      forall m | 0 <= m < |p| ensures p[m] != k {
        assert p[m] == Keys(s)[m] == s[m].key;
      }
    }
    RemovePrefixAbsent(r, k, n - 1);
    assert Keys(s[..n - 1]) == r[..n - 1];
    assert Keys(after) == [k] + Keys(s[..n - 1]);
  }

  lemma UseFresh(s: seq<Entry>, r: seq<int>, k: int, v: int)
    requires |s| <= |r| && Keys(s) == r[..|s|] && k !in KeySet(s)
    ensures var after := [Entry(k, v)] + s;
      |after| <= |[k] + Remove(r, k)| && Keys(after) == ([k] + Remove(r, k))[..|after|]
  {
    var n := |s|;
    assert k !in r[..n] by {
      forall m | 0 <= m < n ensures r[..n][m] != k {
        assert r[..n][m] == Keys(s)[m] == s[m].key;
      }
    }
    RemovePrefixAbsent(r, k, n);
    assert Keys([Entry(k, v)] + s) == [k] + Keys(s);
  }

  /** One call on a cache that matches the recency order keeps it matching. */
  lemma {:induction false} RecencyStep(capacity: int, ops: seq<Op>)
    requires capacity >= 1 && ops != []
    requires var before := Replay(capacity, ops[..|ops| - 1]);
      var r := Recency(Uses(capacity, ops[..|ops| - 1]));
      |before| <= |r| && Keys(before) == r[..|before|]
    ensures |Replay(capacity, ops)| <= |Recency(Uses(capacity, ops))|
    ensures Keys(Replay(capacity, ops)) == Recency(Uses(capacity, ops))[..|Replay(capacity, ops)|]
  {
    var init := ops[..|ops| - 1];
    var op := ops[|ops| - 1];
    var before := Replay(capacity, init);
    var r := Recency(Uses(capacity, init));
    ReplayInv(capacity, init);
    RecencyDistinct(Uses(capacity, init));
    var k := op.key;
    var after := Replay(capacity, ops);
    if !op.Put? && k !in KeySet(before) {
      assert Uses(capacity, ops) == Uses(capacity, init);
    } else {
      var t := Uses(capacity, ops);
      assert t[..|t| - 1] == Uses(capacity, init);
      assert Recency(t) == [k] + Remove(r, k);
      if k in KeySet(before) {
        var i := IndexOf(before, k);
        if op.Put? {
          PutExisting(before, capacity, k, op.value);
          UseHit(before, r, k, after, Entry(k, op.value));
        } else {
          GetHit(before, k, i);
          UseHit(before, r, k, after, before[i]);
        }
      } else if |before| >= capacity {
        UseEvict(before, r, k, op.value);
      } else {
        UseFresh(before, r, k, op.value);
      }
    }
  }

  /** The recency order: after any sequence of calls, the cached keys are
      exactly the most recently used ones, in order of last use, most
      recent first. In particular the `end` entry that `put` evicts is the
      least recently used of the cached keys. */
  lemma {:induction false} RecencyOrder(capacity: int, ops: seq<Op>)
    requires capacity >= 1
    ensures |Replay(capacity, ops)| <= |Recency(Uses(capacity, ops))|
    ensures Keys(Replay(capacity, ops)) == Recency(Uses(capacity, ops))[..|Replay(capacity, ops)|]
  {
    if ops != [] {
      RecencyOrder(capacity, ops[..|ops| - 1]);
      RecencyStep(capacity, ops);
    }
  }

  /** A `put` of a new key into a full cache evicts the key whose last use
      lies furthest back among the cached keys. */
  lemma EvictsLeastRecentlyUsed(capacity: int, ops: seq<Op>, k: int, v: int)
    requires capacity >= 1
    requires k !in KeySet(Replay(capacity, ops)) && |Replay(capacity, ops)| == capacity
    ensures capacity <= |Recency(Uses(capacity, ops))|
    ensures KeySet(Replay(capacity, ops + [Put(k, v)]))
         == KeySet(Replay(capacity, ops)) - {Recency(Uses(capacity, ops))[capacity - 1]} + {k}
  {
    var s := Replay(capacity, ops);
    assert (ops + [Put(k, v)])[..|ops|] == ops;
    ReplayInv(capacity, ops);
    RecencyOrder(capacity, ops);
    PutEvicts(s, capacity, k, v);
    assert Keys(s)[capacity - 1] == s[capacity - 1].key;
  }

  // ---------------------------------------------------------------------
  // The scenarios of the script
  // ---------------------------------------------------------------------

  /** The start of the capacity-4 run: three new keys, each in front of
      the ones before it. */
  lemma TraceFourFill()
    ensures AfterPut([], 4, 1, 1) == [Entry(1, 1)]
    ensures AfterPut([Entry(1, 1)], 4, 10, 15) == [Entry(10, 15), Entry(1, 1)]
    ensures AfterPut([Entry(10, 15), Entry(1, 1)], 4, 15, 10) == [Entry(15, 10), Entry(10, 15), Entry(1, 1)]
  {
    Absent([Entry(1, 1)], 10);
    Absent([Entry(10, 15), Entry(1, 1)], 15);
  }

  /** Then `put(10, 16)` updates key 10 and moves it to the front, and
      `get(10)` returns 16. */
  lemma TraceFourUpdate()
    ensures AfterPut([Entry(15, 10), Entry(10, 15), Entry(1, 1)], 4, 10, 16)
         == [Entry(10, 16), Entry(15, 10), Entry(1, 1)]
    ensures Lookup([Entry(10, 16), Entry(15, 10), Entry(1, 1)], 10) == 16
    ensures AfterGet([Entry(10, 16), Entry(15, 10), Entry(1, 1)], 10) == [Entry(10, 16), Entry(15, 10), Entry(1, 1)]
  {
    var s3 := [Entry(15, 10), Entry(10, 15), Entry(1, 1)];
    assert s3[0].key == 15 && s3[1].key == 10;
    assert IndexOf(s3, 10) == 1;
    var s4 := [Entry(10, 16), Entry(15, 10), Entry(1, 1)];
    assert s4[0].key == 10;
    IndexOfFirst(s4, 10);
  }

  /** The rest of the capacity-4 run: the cache fills up with 12, then 18
      evicts 1 and 13 evicts 15, the least recently used keys. */
  lemma TraceFourEvict()
    ensures AfterPut([Entry(10, 16), Entry(15, 10), Entry(1, 1)], 4, 12, 15)
         == [Entry(12, 15), Entry(10, 16), Entry(15, 10), Entry(1, 1)]
    ensures AfterPut([Entry(12, 15), Entry(10, 16), Entry(15, 10), Entry(1, 1)], 4, 18, 10)
         == [Entry(18, 10), Entry(12, 15), Entry(10, 16), Entry(15, 10)]
    ensures AfterPut([Entry(18, 10), Entry(12, 15), Entry(10, 16), Entry(15, 10)], 4, 13, 16)
         == [Entry(13, 16), Entry(18, 10), Entry(12, 15), Entry(10, 16)]
    ensures Lookup([Entry(13, 16), Entry(18, 10), Entry(12, 15), Entry(10, 16)], 1) == Miss
    ensures AfterGet([Entry(13, 16), Entry(18, 10), Entry(12, 15), Entry(10, 16)], 1)
         == [Entry(13, 16), Entry(18, 10), Entry(12, 15), Entry(10, 16)]
    ensures Lookup([Entry(13, 16), Entry(18, 10), Entry(12, 15), Entry(10, 16)], 15) == Miss
  {
    Absent([Entry(10, 16), Entry(15, 10), Entry(1, 1)], 12);
    Absent([Entry(12, 15), Entry(10, 16), Entry(15, 10), Entry(1, 1)], 18);
    Absent([Entry(18, 10), Entry(12, 15), Entry(10, 16), Entry(15, 10)], 13);
    Absent([Entry(13, 16), Entry(18, 10), Entry(12, 15), Entry(10, 16)], 1);
    Absent([Entry(13, 16), Entry(18, 10), Entry(12, 15), Entry(10, 16)], 15);
  }

  /** A key no entry of `s` carries is not in `KeySet(s)`. */
  lemma Absent(s: seq<Entry>, k: int)
    requires forall m :: 0 <= m < |s| ==> s[m].key != k
    ensures k !in KeySet(s)
  {
  }

  /** The capacity-1 run: `put(2, 1)`, `get(2)` gives 1; `put(3, 2)`
      evicts 2, so `get(2)` misses and `get(3)` gives 2. */
  lemma TraceOne()
    ensures AfterPut([], 1, 2, 1) == [Entry(2, 1)]
    ensures Lookup([Entry(2, 1)], 2) == 1 && AfterGet([Entry(2, 1)], 2) == [Entry(2, 1)]
    ensures AfterPut([Entry(2, 1)], 1, 3, 2) == [Entry(3, 2)]
    ensures Lookup([Entry(3, 2)], 2) == Miss && AfterGet([Entry(3, 2)], 2) == [Entry(3, 2)]
    ensures Lookup([Entry(3, 2)], 3) == 2
  {
    IndexOfFirst([Entry(2, 1)], 2);
    IndexOfFirst([Entry(3, 2)], 3);
  }

  /** The capacity-2 run: `put(2, 1)`, `put(2, 2)`, `get(2)` gives 2;
      `put(1, 1)`, `put(4, 1)` evicts 2, so `get(2)` misses. */
  lemma TraceTwo()
    ensures AfterPut([], 2, 2, 1) == [Entry(2, 1)]
    ensures AfterPut([Entry(2, 1)], 2, 2, 2) == [Entry(2, 2)]
    ensures Lookup([Entry(2, 2)], 2) == 2 && AfterGet([Entry(2, 2)], 2) == [Entry(2, 2)]
    ensures AfterPut([Entry(2, 2)], 2, 1, 1) == [Entry(1, 1), Entry(2, 2)]
    ensures AfterPut([Entry(1, 1), Entry(2, 2)], 2, 4, 1) == [Entry(4, 1), Entry(1, 1)]
    ensures Lookup([Entry(4, 1), Entry(1, 1)], 2) == Miss
  {
    IndexOfFirst([Entry(2, 1)], 2);
    IndexOfFirst([Entry(2, 2)], 2);
  }
}
