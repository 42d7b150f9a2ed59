/** The trie of trie.py as it is built: every `TrieNode` lives in an arena
    `nodes` (the root at position 0), and a node's `edges` dict is the
    sequence of its (character, child position) pairs in insertion order.
    The ghost map `index` names every node by the path that reaches it;
    through it the arena is proved to hold the `Content` of `TrieSpec`,
    and `insert`, `search`, `search_all_values` and `delete` to act on it
    as the functions there say. */
module Trie {
  import opened TrieSpec

  /** An entry of a node's `edges` dict. */
  datatype Edge = Edge(letter: char, child: nat)

  datatype TrieNode = TrieNode(key: Option<char>, value: int, edges: seq<Edge>, isEnd: bool)

  /** A new `TrieNode()` whose `key` has been set. */
  function Fresh(key: Option<char>): TrieNode
  {
    TrieNode(key, 0, [], false)
  }

  /** The dict lookup `c in edges` / `edges[c]`: the position of the edge
      labelled `c`, if any. */
  function Find(es: seq<Edge>, c: char): (r: Option<nat>)
    ensures r.Some? ==> r.value < |es| && es[r.value].letter == c
    ensures r.None? ==> forall k :: 0 <= k < |es| ==> es[k].letter != c
  {
    if es == [] then None
    else if es[0].letter == c then Some(0)
    else match Find(es[1..], c)
      case None => None
      case Some(k) => Some(k + 1)
  }

  /** The keys of a dict are distinct. */
  predicate DistinctLetters(es: seq<Edge>)
  {
    forall a, b :: 0 <= a < b < |es| ==> es[a].letter != es[b].letter
  }

  /** The child reached from node `i` by `c`, if any. */
  function Child(ns: seq<TrieNode>, i: nat, c: char): Option<nat>
    requires i < |ns|
  {
    match Find(ns[i].edges, c)
    case None => None
    case Some(k) => Some(ns[i].edges[k].child)
  }

  // ---------------------------------------------------------------------
  // Invariants of the arena
  // ---------------------------------------------------------------------

  /** Node `i` has a dict, children placed after it whose `key` is the
      character that leads to them, and a value that is not negative. */
  predicate NodeOk(ns: seq<TrieNode>, i: nat)
    requires i < |ns|
  {
    ns[i].value >= 0 && DistinctLetters(ns[i].edges) &&
    forall k :: 0 <= k < |ns[i].edges| ==>
      i < ns[i].edges[k].child < |ns| && ns[ns[i].edges[k].child].key == Some(ns[i].edges[k].letter)
  }

  /** The arena: a root with no character and value 0, and every node ok. */
  predicate Arena(ns: seq<TrieNode>)
  {
    |ns| > 0 && ns[0].key == None && ns[0].value == 0 &&
    forall i :: 0 <= i < |ns| ==> NodeOk(ns, i)
  }

  /** Every edge out of the node for `w` leads to the node for `w` and its
      label. */
  predicate Down(ns: seq<TrieNode>, ix: map<Word, nat>, w: Word)
  {
    w in ix && ix[w] < |ns| &&
    forall k :: 0 <= k < |ns[ix[w]].edges| ==>
      w + [ns[ix[w]].edges[k].letter] in ix && ix[w + [ns[ix[w]].edges[k].letter]] == ns[ix[w]].edges[k].child
  }

  /** The node for a nonempty `w` is reached from the node for `w` without
      its last character. */
  predicate Up(ns: seq<TrieNode>, ix: map<Word, nat>, w: Word)
  {
    w in ix && w != [] && w[..|w| - 1] in ix && ix[w[..|w| - 1]] < |ns| &&
    Child(ns, ix[w[..|w| - 1]], w[|w| - 1]) == Some(ix[w])
  }

  /** `ix` names the nodes reachable from the root by their paths: one
      path per node, following edges both ways. */
  predicate Indexed(ns: seq<TrieNode>, ix: map<Word, nat>)
  {
    [] in ix && ix[[]] == 0 &&
    (forall w :: w in ix ==> ix[w] < |ns|) &&
    (forall w1, w2 :: w1 in ix && w2 in ix && ix[w1] == ix[w2] ==> w1 == w2) &&
    (forall w {:trigger Down(ns, ix, w)} :: w in ix ==> Down(ns, ix, w)) &&
    (forall w {:trigger Up(ns, ix, w)} :: w in ix && w != [] ==> Up(ns, ix, w))
  }

  /** Every reachable node below the root, except perhaps the one for `u`,
      is end-marked or has a child. */
  predicate LiveBut(ns: seq<TrieNode>, ix: map<Word, nat>, u: Word)
  {
    forall w :: w in ix && w != [] && w != u ==> ix[w] < |ns| && (ns[ix[w]].isEnd || ns[ix[w]].edges != [])
  }

  predicate Inv(ns: seq<TrieNode>, ix: map<Word, nat>)
  {
    Arena(ns) && Indexed(ns, ix) && LiveBut(ns, ix, [])
  }

  function ValueAt(ns: seq<TrieNode>, ix: map<Word, nat>, w: Word): int
  {
    if w in ix && ix[w] < |ns| then ns[ix[w]].value else 0
  }

  predicate EndAt(ns: seq<TrieNode>, ix: map<Word, nat>, w: Word)
  {
    w in ix && ix[w] < |ns| && ns[ix[w]].isEnd
  }

  /** The content the arena holds. */
  function ViewOf(ns: seq<TrieNode>, ix: map<Word, nat>): Content
  {
    Content(set w | w in ix && EndAt(ns, ix, w), map w | w in ix :: ValueAt(ns, ix, w))
  }

  // ---------------------------------------------------------------------
  // Edges
  // ---------------------------------------------------------------------

  lemma FindUnique(es: seq<Edge>, k: nat, c: char)
    requires DistinctLetters(es) && k < |es| && es[k].letter == c
    ensures Find(es, c) == Some(k)
  {
  }

  /** Adding an edge with a new label keeps every lookup and finds it. */
  lemma FindAppend(es: seq<Edge>, e: Edge, c: char)
    requires DistinctLetters(es) && Find(es, e.letter).None?
    ensures DistinctLetters(es + [e])
    ensures Find(es + [e], c) == if c == e.letter then Some(|es|) else Find(es, c)
  {
    var t := es + [e];
    if c == e.letter {
      FindUnique(t, |es|, c);
    } else if Find(es, c).Some? {
      FindUnique(t, Find(es, c).value, c);
    } else {
      assert forall k :: 0 <= k < |t| ==> t[k].letter != c;
    }
  }

  /** Popping the edge at `f` keeps every other lookup's target. */
  lemma FindDrop(es: seq<Edge>, f: nat, c: char)
    requires DistinctLetters(es) && f < |es| && c != es[f].letter
    ensures DistinctLetters(es[..f] + es[f + 1..])
    ensures match Find(es[..f] + es[f + 1..], c)
      case None => Find(es, c).None?
      case Some(k) => Find(es, c).Some? && (es[..f] + es[f + 1..])[k] == es[Find(es, c).value]
  {
    var t := es[..f] + es[f + 1..];
    forall k | 0 <= k < |t| ensures t[k] == es[if k < f then k else k + 1] {
    }
    forall a, b | 0 <= a < b < |t| ensures t[a].letter != t[b].letter {
    }
    match Find(es, c)
    case None =>
      assert forall k :: 0 <= k < |t| ==> t[k].letter != c;
    case Some(k) =>
      assert k != f;
      var j := if k < f then k else k - 1;
      assert t[j] == es[k];
      FindUnique(t, j, c);
      assert Find(t, c) == Some(j);
  }

  // ---------------------------------------------------------------------
  // Facts about a valid arena
  // ---------------------------------------------------------------------

  /** Every prefix of a path is a path. */
  lemma {:induction false} PrefixClosed(ns: seq<TrieNode>, ix: map<Word, nat>, w: Word, m: nat)
    requires Indexed(ns, ix) && w in ix && m <= |w|
    ensures w[..m] in ix
    decreases |w| - m
  {
    if m < |w| {
      PrefixClosed(ns, ix, w, m + 1);
      var u := w[..m + 1];
      assert Up(ns, ix, u);
      assert |u| - 1 == m && u[..m] == w[..m];
    } else {
      assert w[..m] == w;
    }
  }

  /** The character of the node for `w` is the last one of `w`. */
  lemma KeyOf(ns: seq<TrieNode>, ix: map<Word, nat>, w: Word)
    requires Arena(ns) && Indexed(ns, ix) && w in ix
    ensures ns[ix[w]].key == if w == [] then None else Some(w[|w| - 1])
  {
    if w != [] {
      assert Up(ns, ix, w);
      var p := ix[w[..|w| - 1]];
      assert NodeOk(ns, p);
    }
  }

  /** Following the edge labelled `c` from the node for `u`. */
  lemma Step(ns: seq<TrieNode>, ix: map<Word, nat>, u: Word, c: char)
    requires Arena(ns) && Indexed(ns, ix) && u in ix
    ensures Find(ns[ix[u]].edges, c).Some? ==>
      u + [c] in ix && ix[u + [c]] == ns[ix[u]].edges[Find(ns[ix[u]].edges, c).value].child
    ensures Find(ns[ix[u]].edges, c).None? ==> u + [c] !in ix
  {
    assert Down(ns, ix, u);
    if u + [c] in ix {
      assert Up(ns, ix, u + [c]);
      assert (u + [c])[..|u|] == u;
    }
  }

  /** A path whose walk meets a missing edge is not there. */
  lemma Absent(ns: seq<TrieNode>, ix: map<Word, nat>, w: Word, n: nat)
    requires Arena(ns) && Indexed(ns, ix) && n < |w| && w[..n] in ix
    requires Find(ns[ix[w[..n]]].edges, w[n]).None?
    ensures w !in ix
  {
    Step(ns, ix, w[..n], w[n]);
    assert w[..n] + [w[n]] == w[..n + 1];
    if w in ix {
      PrefixClosed(ns, ix, w, n + 1);
    }
  }

  /** From a node below the root, edges lead down to a word. */
  lemma {:induction false} ToWord(ns: seq<TrieNode>, ix: map<Word, nat>, w: Word) returns (q: Word)
    requires Inv(ns, ix) && w in ix && w != []
    ensures EndAt(ns, ix, q) && w <= q
    decreases |ns| - ix[w]
  {
    if ns[ix[w]].isEnd {
      q := w;
    } else {
      assert Down(ns, ix, w) && NodeOk(ns, ix[w]);
      var e := ns[ix[w]].edges[0];
      q := ToWord(ns, ix, w + [e.letter]);
      assert q[..|w| + 1] == w + [e.letter];
      assert q[..|w|] == q[..|w| + 1][..|w|];
    }
  }

  /** The nodes of a valid arena are exactly the paths of its words. */
  lemma IndexPaths(ns: seq<TrieNode>, ix: map<Word, nat>)
    requires Inv(ns, ix)
    ensures ix.Keys == Paths(ViewOf(ns, ix).words)
  {
    var words := ViewOf(ns, ix).words;
    forall w | w in ix ensures w in Paths(words) {
      if w != [] {
        var q := ToWord(ns, ix, w);
        InPaths(words, q, w);
      }
    }
    forall p | p in Paths(words) ensures p in ix {
      if p != [] {
        var q := PathOf(words, p);
        PrefixClosed(ns, ix, q, |p|);
        assert q[..|p|] == p;
      }
    }
  }

  /** A valid arena holds a coherent content. */
  lemma Coherence(ns: seq<TrieNode>, ix: map<Word, nat>)
    requires Inv(ns, ix)
    ensures Coherent(ViewOf(ns, ix))
  {
    IndexPaths(ns, ix);
    forall p | p in ViewOf(ns, ix).values ensures ViewOf(ns, ix).values[p] >= 0 {
      assert NodeOk(ns, ix[p]);
    }
  }

  /** The root has an edge or is end-marked exactly when the trie holds a
      word. */
  lemma RootHolds(ns: seq<TrieNode>, ix: map<Word, nat>)
    requires Inv(ns, ix)
    ensures (ns[0].edges != [] || ns[0].isEnd) <==> ViewOf(ns, ix).words != {}
  {
    var words := ViewOf(ns, ix).words;
    if ns[0].isEnd {
      assert [] in words;
    } else if ns[0].edges != [] {
      assert Down(ns, ix, []);
      var q := ToWord(ns, ix, [] + [ns[0].edges[0].letter]);
      assert q in words;
    }
    if w :| w in words {
      if w != [] {
        PrefixClosed(ns, ix, w, 1);
        assert Up(ns, ix, w[..1]);
        assert w[..1][..0] == [];
      }
    }
  }

  // ---------------------------------------------------------------------
  // search_all_values: the words below a node, in the order the
  // generator `_searchUtil` yields them
  // ---------------------------------------------------------------------

  function Prefixed(p: Word, ws: seq<Word>): (r: seq<Word>)
    ensures |r| == |ws| && forall m :: 0 <= m < |ws| ==> r[m] == p + ws[m]
  {
    seq(|ws|, m requires 0 <= m < |ws| => p + ws[m])
  }

  /** `_searchUtil` from node `i`, relative to it: the node's own word if
      it is end-marked, then the words below each edge in dict order. */
  function Collect(ns: seq<TrieNode>, i: nat): seq<Word>
    requires Arena(ns) && i < |ns|
    decreases |ns| - i, 1
  {
    (if ns[i].isEnd then [[]] else []) + CollectFrom(ns, i, 0)
  }

  function CollectFrom(ns: seq<TrieNode>, i: nat, k: nat): seq<Word>
    requires Arena(ns) && i < |ns| && k <= |ns[i].edges|
    decreases |ns| - i, 0, |ns[i].edges| - k
  {
    if k == |ns[i].edges| then []
    else
      assert NodeOk(ns, i);
      var e := ns[i].edges[k];
      Prefixed([e.letter], Collect(ns, e.child)) + CollectFrom(ns, i, k + 1)
  }

  lemma {:induction false} CollectFromHas(ns: seq<TrieNode>, i: nat, k: nat, q: Word)
    requires Arena(ns) && i < |ns| && k <= |ns[i].edges|
    ensures NodeOk(ns, i)
    ensures q in CollectFrom(ns, i, k) <==>
      q != [] && exists j :: k <= j < |ns[i].edges| && ns[i].edges[j].letter == q[0] && q[1..] in Collect(ns, ns[i].edges[j].child)
    decreases |ns[i].edges| - k
  {
    assert NodeOk(ns, i);
    if k < |ns[i].edges| {
      CollectFromHas(ns, i, k + 1, q);
      var e := ns[i].edges[k];
      var block := Prefixed([e.letter], Collect(ns, e.child));
      if q in block {
        var m :| 0 <= m < |block| && block[m] == q;
        assert q[1..] == Collect(ns, e.child)[m];
      }
      if q != [] && q[0] == e.letter && q[1..] in Collect(ns, e.child) {
        var m :| 0 <= m < |Collect(ns, e.child)| && Collect(ns, e.child)[m] == q[1..];
        assert block[m] == q;
      }
    }
  }

  /** The words `Collect` lists below the node for `w` are exactly the
      end-marked extensions of `w`. */
  lemma {:induction false} CollectWords(ns: seq<TrieNode>, ix: map<Word, nat>, w: Word, q: Word)
    requires Arena(ns) && Indexed(ns, ix) && w in ix
    ensures q in Collect(ns, ix[w]) <==> EndAt(ns, ix, w + q)
    decreases |q|
  {
    var i := ix[w];
    CollectFromHas(ns, i, 0, q);
    if q == [] {
      assert w + q == w;
    } else {
      var c := q[0];
      Step(ns, ix, w, c);
      assert w + q == (w + [c]) + q[1..];
      match Find(ns[i].edges, c)
      case None =>
        if w + q in ix {
          PrefixClosed(ns, ix, w + q, |w| + 1);
        }
      case Some(j) =>
        CollectWords(ns, ix, w + [c], q[1..]);
        forall j' | 0 <= j' < |ns[i].edges| && ns[i].edges[j'].letter == c ensures j' == j {
          FindUnique(ns[i].edges, j', c);
        }
    }
  }

  /** No word is listed twice. */
  predicate Unrepeated(ws: seq<Word>)
  {
    forall a, b :: 0 <= a < b < |ws| ==> ws[a] != ws[b]
  }

  /** The same prefix in front of distinct words keeps them distinct. */
  lemma PrefixedUnrepeated(p: Word, ws: seq<Word>)
    requires Unrepeated(ws)
    ensures Unrepeated(Prefixed(p, ws))
  {
    var r := Prefixed(p, ws);
    forall a, b | 0 <= a < b < |r| ensures r[a] != r[b] {
      assert r[a][|p|..] == ws[a] && r[b][|p|..] == ws[b];
    }
  }

  /** Two lists without repeats and without a common word join into one
      without repeats. */
  lemma JoinUnrepeated(xs: seq<Word>, ys: seq<Word>)
    requires Unrepeated(xs) && Unrepeated(ys) && forall q :: q in xs ==> q !in ys
    ensures Unrepeated(xs + ys)
  {
    forall a, b | 0 <= a < b < |xs + ys| ensures (xs + ys)[a] != (xs + ys)[b] {
      if a < |xs| && b >= |xs| {
        assert (xs + ys)[a] in xs && (xs + ys)[b] == ys[b - |xs|];
      }
    }
  }

  /** `_searchUtil` yields every end-marked node below node `i` once: the
      children of a node carry distinct letters, so the words below two
      edges differ in their first character. */
  lemma {:induction false} CollectUnrepeated(ns: seq<TrieNode>, i: nat)
    requires Arena(ns) && i < |ns|
    ensures Unrepeated(Collect(ns, i))
    decreases |ns| - i, 1
  {
    var own: seq<Word> := if ns[i].isEnd then [[]] else [];
    CollectFromUnrepeated(ns, i, 0);
    JoinUnrepeated(own, CollectFrom(ns, i, 0));
  }

  lemma {:induction false} CollectFromUnrepeated(ns: seq<TrieNode>, i: nat, k: nat)
    requires Arena(ns) && i < |ns| && k <= |ns[i].edges|
    ensures Unrepeated(CollectFrom(ns, i, k)) && [] !in CollectFrom(ns, i, k)
    decreases |ns| - i, 0, |ns[i].edges| - k
  {
    assert NodeOk(ns, i);
    if k < |ns[i].edges| {
      var e := ns[i].edges[k];
      var block := Prefixed([e.letter], Collect(ns, e.child));
      var rest := CollectFrom(ns, i, k + 1);
      CollectUnrepeated(ns, e.child);
      PrefixedUnrepeated([e.letter], Collect(ns, e.child));
      CollectFromUnrepeated(ns, i, k + 1);
      forall q | q in block ensures q !in rest && q != [] {
        var m :| 0 <= m < |block| && block[m] == q;
        assert q[0] == e.letter;
        CollectFromHas(ns, i, k + 1, q);
      }
      JoinUnrepeated(block, rest);
    }
  }

  // ---------------------------------------------------------------------
  // insert: the invariant of the walk down `k`
  // ---------------------------------------------------------------------

  /** The paths so far: the old ones, kept at their nodes, and the first
      `n` prefixes of `k`. */
  ghost predicate Grown(ix0: map<Word, nat>, k: Word, n: nat, ix: map<Word, nat>)
  {
    (forall w :: w in ix <==> w in ix0 || (w <= k && |w| <= n)) &&
    (forall w :: w in ix0 ==> w in ix && ix[w] == ix0[w])
  }

  /** No end mark has changed, and the nodes for the first `raised`
      nonempty prefixes of `k` have been raised to `v`. */
  ghost predicate Tracks(ns0: seq<TrieNode>, ix0: map<Word, nat>, k: Word, v: int, raised: nat,
                         ns: seq<TrieNode>, ix: map<Word, nat>)
  {
    forall w :: w in ix ==>
      (ix[w] < |ns| && ns[ix[w]].isEnd == EndAt(ns0, ix0, w) &&
       ns[ix[w]].value == if w != [] && w <= k && |w| <= raised then Max(ValueAt(ns0, ix0, w), v) else ValueAt(ns0, ix0, w))
  }

  /** After `n` characters of `k`: `cur` is the node for `k[..n]`, and
      every node but the current one is live. */
  ghost predicate Walk(ns0: seq<TrieNode>, ix0: map<Word, nat>, k: Word, v: int, n: nat, raised: nat,
                 ns: seq<TrieNode>, ix: map<Word, nat>, cur: nat)
  {
    n <= |k| && raised <= n && Arena(ns) && Indexed(ns, ix) &&
    k[..n] in ix && ix[k[..n]] == cur &&
    Grown(ix0, k, n, ix) && Tracks(ns0, ix0, k, v, raised, ns, ix) && LiveBut(ns, ix, k[..n])
  }

  lemma WalkStart(ns: seq<TrieNode>, ix: map<Word, nat>, k: Word, v: int)
    requires Inv(ns, ix)
    ensures Walk(ns, ix, k, v, 0, 0, ns, ix, 0)
  {
    assert k[..0] == [];
  }

  /** Changing only end marks and values (never the root's, never
      downwards) keeps the arena and its index. */
  lemma Reshaped(ns: seq<TrieNode>, ns2: seq<TrieNode>, ix: map<Word, nat>)
    requires Arena(ns) && Indexed(ns, ix) && |ns2| == |ns| && ns2[0].value == 0
    requires forall i :: 0 <= i < |ns| ==> ns2[i].key == ns[i].key && ns2[i].edges == ns[i].edges && ns2[i].value >= ns[i].value
    ensures Arena(ns2) && Indexed(ns2, ix)
  {
    forall i | 0 <= i < |ns2| ensures NodeOk(ns2, i) {
      assert NodeOk(ns, i);
    }
    forall w | w in ix ensures Down(ns2, ix, w) {
      assert Down(ns, ix, w);
    }
    forall w | w in ix && w != [] ensures Up(ns2, ix, w) {
      assert Up(ns, ix, w);
    }
  }

  /** The only prefix of `k` of length `m` is `k[..m]`. */
  lemma PrefixAt(k: Word, w: Word)
    requires w <= k
    ensures w == k[..|w|]
  {
  }

  /** Following an existing edge for `k[n]`. */
  lemma Descend(ns0: seq<TrieNode>, ix0: map<Word, nat>, k: Word, v: int, n: nat,
                ns: seq<TrieNode>, ix: map<Word, nat>, cur: nat, j: nat)
    requires Walk(ns0, ix0, k, v, n, n, ns, ix, cur) && n < |k|
    requires cur < |ns| && j < |ns[cur].edges| && ns[cur].edges[j].letter == k[n]
    ensures Walk(ns0, ix0, k, v, n + 1, n, ns, ix, ns[cur].edges[j].child)
  {
    assert NodeOk(ns, cur);
    FindUnique(ns[cur].edges, j, k[n]);
    Step(ns, ix, k[..n], k[n]);
    assert k[..n] + [k[n]] == k[..n + 1];
    forall w | w <= k && |w| <= n + 1 ensures w in ix {
      PrefixAt(k, w);
    }
  }

  /** The arena after `node = TrieNode(); node.key = c; edges[c] = node`
      at node `cur`. */
  function AddChild(ns: seq<TrieNode>, cur: nat, c: char): seq<TrieNode>
    requires cur < |ns|
  {
    ns[cur := ns[cur].(edges := ns[cur].edges + [Edge(c, |ns|)])] + [Fresh(Some(c))]
  }

  lemma ArenaAdd(ns: seq<TrieNode>, cur: nat, c: char)
    requires Arena(ns) && cur < |ns| && Find(ns[cur].edges, c).None?
    ensures Arena(AddChild(ns, cur, c))
  {
    var ns2 := AddChild(ns, cur, c);
    forall i | 0 <= i < |ns2| ensures NodeOk(ns2, i) {
      if i == cur {
        assert NodeOk(ns, i);
        FindAppend(ns[cur].edges, Edge(c, |ns|), c);
      } else if i < |ns| {
        assert NodeOk(ns, i);
      }
    }
  }

  lemma IndexedAdd(ns: seq<TrieNode>, ix: map<Word, nat>, u: Word, c: char)
    requires Arena(ns) && Indexed(ns, ix) && u in ix && Find(ns[ix[u]].edges, c).None?
    ensures u + [c] !in ix
    ensures Indexed(AddChild(ns, ix[u], c), ix[u + [c] := |ns|])
  {
    Step(ns, ix, u, c);
    var ns2, ix2 := AddChild(ns, ix[u], c), ix[u + [c] := |ns|];
    forall w | w in ix2 ensures Down(ns2, ix2, w) {
      AddDown(ns, ix, u, c, w);
    }
    forall w | w in ix2 && w != [] ensures Up(ns2, ix2, w) {
      AddUp(ns, ix, u, c, w);
    }
  }

  lemma AddDown(ns: seq<TrieNode>, ix: map<Word, nat>, u: Word, c: char, w: Word)
    requires Arena(ns) && Indexed(ns, ix) && u in ix && Find(ns[ix[u]].edges, c).None?
    requires u + [c] !in ix && (w in ix || w == u + [c])
    ensures Down(AddChild(ns, ix[u], c), ix[u + [c] := |ns|], w)
  {
    var cur := ix[u];
    var w2 := u + [c];
    if w != w2 {
      assert Down(ns, ix, w);
      if ix[w] == cur {
        assert NodeOk(ns, cur);
        FindAppend(ns[cur].edges, Edge(c, |ns|), c);
      }
    }
  }

  lemma AddUp(ns: seq<TrieNode>, ix: map<Word, nat>, u: Word, c: char, w: Word)
    requires Arena(ns) && Indexed(ns, ix) && u in ix && Find(ns[ix[u]].edges, c).None?
    requires u + [c] !in ix && (w in ix || w == u + [c]) && w != []
    ensures Up(AddChild(ns, ix[u], c), ix[u + [c] := |ns|], w)
  {
    var cur := ix[u];
    assert NodeOk(ns, cur);
    var d := w[|w| - 1];
    FindAppend(ns[cur].edges, Edge(c, |ns|), d);
    if w == u + [c] {
      assert w[..|w| - 1] == u;
    } else {
      assert Up(ns, ix, w);
      assert w == w[..|w| - 1] + [d];
    }
  }

  lemma GrownAdd(ix0: map<Word, nat>, k: Word, n: nat, ix: map<Word, nat>, x: nat)
    requires Grown(ix0, k, n, ix) && n < |k| && k[..n + 1] !in ix
    ensures Grown(ix0, k, n + 1, ix[k[..n + 1] := x])
  {
    forall w | w <= k && |w| <= n + 1 ensures w in ix[k[..n + 1] := x] {
      PrefixAt(k, w);
    }
  }

  lemma TracksAdd(ns0: seq<TrieNode>, ix0: map<Word, nat>, k: Word, v: int, raised: nat,
                  ns: seq<TrieNode>, ix: map<Word, nat>, cur: nat, w2: Word)
    requires Tracks(ns0, ix0, k, v, raised, ns, ix) && cur < |ns|
    requires w2 !in ix && w2 !in ix0 && |w2| > raised && w2 != []
    ensures Tracks(ns0, ix0, k, v, raised, AddChild(ns, cur, w2[|w2| - 1]), ix[w2 := |ns|])
  {
  }

  lemma LiveAdd(ns: seq<TrieNode>, ix: map<Word, nat>, u: Word, c: char)
    requires LiveBut(ns, ix, u) && u in ix && ix[u] < |ns|
    ensures LiveBut(AddChild(ns, ix[u], c), ix[u + [c] := |ns|], u + [c])
  {
  }

  /** Creating the node for `k[n]` below the current one. */
  lemma Extend(ns0: seq<TrieNode>, ix0: map<Word, nat>, k: Word, v: int, n: nat,
               ns: seq<TrieNode>, ix: map<Word, nat>, cur: nat)
    requires Walk(ns0, ix0, k, v, n, n, ns, ix, cur) && n < |k|
    requires cur < |ns| && Find(ns[cur].edges, k[n]).None?
    ensures Walk(ns0, ix0, k, v, n + 1, n, AddChild(ns, cur, k[n]), ix[k[..n + 1] := |ns|], |ns|)
  {
    var u := k[..n];
    assert u + [k[n]] == k[..n + 1];
    ArenaAdd(ns, cur, k[n]);
    IndexedAdd(ns, ix, u, k[n]);
    GrownAdd(ix0, k, n, ix, |ns|);
    TracksAdd(ns0, ix0, k, v, n, ns, ix, cur, k[..n + 1]);
    LiveAdd(ns, ix, u, k[n]);
  }

  /** `if root.value < v: root.value = v` at the node for `k[..n+1]`. */
  function RaiseAt(ns: seq<TrieNode>, cur: nat, v: int): seq<TrieNode>
    requires cur < |ns|
  {
    if ns[cur].value < v then ns[cur := ns[cur].(value := v)] else ns
  }

  lemma TracksRaise(ns0: seq<TrieNode>, ix0: map<Word, nat>, k: Word, v: int, n: nat,
                    ns: seq<TrieNode>, ix: map<Word, nat>)
    requires Tracks(ns0, ix0, k, v, n, ns, ix) && n < |k| && k[..n + 1] in ix
    requires forall w1, w2 :: w1 in ix && w2 in ix && ix[w1] == ix[w2] ==> w1 == w2
    ensures Tracks(ns0, ix0, k, v, n + 1, RaiseAt(ns, ix[k[..n + 1]], v), ix)
  {
    var u := k[..n + 1];
    forall w | w in ix && w != u ensures !(w <= k && |w| == n + 1) {
      if w <= k {
        PrefixAt(k, w);
      }
    }
  }

  lemma Raise(ns0: seq<TrieNode>, ix0: map<Word, nat>, k: Word, v: int, n: nat,
              ns: seq<TrieNode>, ix: map<Word, nat>, cur: nat)
    requires Walk(ns0, ix0, k, v, n + 1, n, ns, ix, cur)
    ensures cur < |ns| && Walk(ns0, ix0, k, v, n + 1, n + 1, RaiseAt(ns, cur, v), ix, cur)
  {
    var ns2 := RaiseAt(ns, cur, v);
    assert k[..n + 1] != [];
    assert NodeOk(ns, cur);
    Reshaped(ns, ns2, ix);
    TracksRaise(ns0, ix0, k, v, n, ns, ix);
  }

  /** `root.is_end = True` at the node for `k`: the walk is done. */
  lemma Finish(ns0: seq<TrieNode>, ix0: map<Word, nat>, k: Word, v: int,
               ns: seq<TrieNode>, ix: map<Word, nat>, cur: nat)
    requires Inv(ns0, ix0) && Walk(ns0, ix0, k, v, |k|, |k|, ns, ix, cur)
    ensures cur < |ns|
    ensures Inv(ns[cur := ns[cur].(isEnd := true)], ix)
    ensures ViewOf(ns[cur := ns[cur].(isEnd := true)], ix) == AfterInsert(ViewOf(ns0, ix0), k, v)
  {
    var ns2 := ns[cur := ns[cur].(isEnd := true)];
    assert k[..|k|] == k;
    assert NodeOk(ns, cur);
    Reshaped(ns, ns2, ix);
    FinishView(ns0, ix0, k, v, ns, ix, cur);
  }

  lemma FinishView(ns0: seq<TrieNode>, ix0: map<Word, nat>, k: Word, v: int,
                   ns: seq<TrieNode>, ix: map<Word, nat>, cur: nat)
    requires Inv(ns0, ix0) && Grown(ix0, k, |k|, ix) && Tracks(ns0, ix0, k, v, |k|, ns, ix)
    requires k in ix && ix[k] == cur && forall w :: w in ix && ix[w] == cur ==> w == k
    ensures cur < |ns|
    ensures ViewOf(ns[cur := ns[cur].(isEnd := true)], ix) == AfterInsert(ViewOf(ns0, ix0), k, v)
  {
    var ns2 := ns[cur := ns[cur].(isEnd := true)];
    var c, c2 := ViewOf(ns0, ix0), ViewOf(ns2, ix);
    var a := AfterInsert(c, k, v);
    assert c2.words == a.words;
    forall w ensures w in ix <==> w in a.values {
      if w <= k {
        OnPath(k, w);
      }
      if w in PrefixSet(k) {
        FromPath(k, w);
      }
    }
    forall w | w in ix ensures c2.values[w] == a.values[w] {
    }
  }

  /** A path that a longer path extends is a path too. */
  lemma Reaches(ns: seq<TrieNode>, ix: map<Word, nat>, q: Word, p: Word)
    requires Indexed(ns, ix) && q in ix && p <= q
    ensures p in ix
  {
    PrefixClosed(ns, ix, q, |p|);
    assert q[..|p|] == p;
  }

  /** The words `Prefixed(w, Collect(...))` lists from the node for `w`
      are the words of the trie that start with `w`, each once. */
  lemma ListsUnder(ns: seq<TrieNode>, ix: map<Word, nat>, w: Word)
    requires Arena(ns) && Indexed(ns, ix) && w in ix
    ensures forall q :: q in Prefixed(w, Collect(ns, ix[w])) <==> q in WordsUnder(ViewOf(ns, ix), w)
    ensures Unrepeated(Prefixed(w, Collect(ns, ix[w])))
  {
    CollectUnrepeated(ns, ix[w]);
    PrefixedUnrepeated(w, Collect(ns, ix[w]));
    var below := Collect(ns, ix[w]);
    var r := Prefixed(w, below);
    forall q ensures q in r <==> q in WordsUnder(ViewOf(ns, ix), w) {
      if q in r {
        var m :| 0 <= m < |r| && r[m] == q;
        CollectWords(ns, ix, w, below[m]);
      }
      if q in WordsUnder(ViewOf(ns, ix), w) {
        var s := q[|w|..];
        assert w + s == q;
        CollectWords(ns, ix, w, s);
        var m :| 0 <= m < |below| && below[m] == s;
        assert r[m] == q;
      }
    }
  }

  // ---------------------------------------------------------------------
  // delete: the state after `_deleteUtil` returns at depth |u|
  // ---------------------------------------------------------------------

  /** The paths left: old ones at their old nodes; every path removed lies
      strictly below `u` on the way to `key`, and held no word but `key`. */
  ghost predicate Shrunk(ns0: seq<TrieNode>, ix0: map<Word, nat>, key: Word, u: Word, ix: map<Word, nat>)
  {
    (forall w :: w in ix ==> w in ix0 && ix[w] == ix0[w]) &&
    (forall w :: w in ix0 && w !in ix ==> u < w && w <= key && (w == key || !EndAt(ns0, ix0, w)))
  }

  /** Only `key`'s end mark is cleared; values do not change; and the
      nodes off the subtree of `u` are as they were. */
  ghost predicate Kept(ns0: seq<TrieNode>, ix0: map<Word, nat>, key: Word, u: Word,
                       ns: seq<TrieNode>, ix: map<Word, nat>)
  {
    (forall w :: w in ix ==>
      (w in ix0 && ix[w] < |ns| && ix0[w] < |ns0| &&
       ns[ix[w]].isEnd == (EndAt(ns0, ix0, w) && w != key) && ns[ix[w]].value == ns0[ix0[w]].value)) &&
    (forall w :: w in ix0 && !(u <= w) ==> ix0[w] < |ns| && ix0[w] < |ns0| && ns[ix0[w]] == ns0[ix0[w]])
  }

  ghost predicate Pruned(ns0: seq<TrieNode>, ix0: map<Word, nat>, key: Word, u: Word,
                         ns: seq<TrieNode>, ix: map<Word, nat>)
  {
    Arena(ns) && Indexed(ns, ix) && LiveBut(ns, ix, u) && |ns| == |ns0| &&
    u in ix && Shrunk(ns0, ix0, key, u, ix) && Kept(ns0, ix0, key, u, ns, ix)
  }

  /** `root.is_end = False` at the node for `key`. */
  lemma ClearEnd(ns0: seq<TrieNode>, ix0: map<Word, nat>, key: Word)
    requires Inv(ns0, ix0) && key in ix0
    ensures Pruned(ns0, ix0, key, key, ns0[ix0[key] := ns0[ix0[key]].(isEnd := false)], ix0)
  {
    var i := ix0[key];
    var ns := ns0[i := ns0[i].(isEnd := false)];
    assert NodeOk(ns0, i);
    Reshaped(ns0, ns, ix0);
    forall w | w in ix0 && !(key <= w) ensures ix0[w] != i {
      assert w != key;
    }
  }

  /** A node with a path below it has an edge. */
  lemma Extends(ns: seq<TrieNode>, ix: map<Word, nat>, p: Word, w: Word)
    requires Indexed(ns, ix) && p in ix && w in ix && p < w
    ensures ns[ix[p]].edges != []
  {
    var x := w[..|p| + 1];
    Reaches(ns, ix, w, x);
    assert Up(ns, ix, x);
    assert x[..|x| - 1] == p;
  }

  /** `if flag: return True`: the child is live, so everything is. */
  lemma KeepAll(ns0: seq<TrieNode>, ix0: map<Word, nat>, key: Word, depth: nat,
                ns: seq<TrieNode>, ix: map<Word, nat>)
    requires depth < |key| && key[..depth] in ix0 && key[..depth] in ix
    requires Pruned(ns0, ix0, key, key[..depth + 1], ns, ix)
    requires ns[ix[key[..depth + 1]]].edges != [] || ns[ix[key[..depth + 1]]].isEnd
    ensures Pruned(ns0, ix0, key, key[..depth], ns, ix)
  {
    var u, u' := key[..depth], key[..depth + 1];
    assert u <= u' by {
      assert u'[..depth] == u;
    }
  }

  /** `root.edges.pop(letter)`. */
  function PopAt(ns: seq<TrieNode>, i: nat, f: nat): seq<TrieNode>
    requires i < |ns| && f < |ns[i].edges|
  {
    ns[i := ns[i].(edges := ns[i].edges[..f] + ns[i].edges[f + 1..])]
  }

  lemma ArenaPop(ns: seq<TrieNode>, i: nat, f: nat)
    requires Arena(ns) && i < |ns| && f < |ns[i].edges|
    ensures Arena(PopAt(ns, i, f))
  {
    var es := ns[i].edges;
    var t := es[..f] + es[f + 1..];
    assert NodeOk(ns, i);
    assert forall k :: 0 <= k < |t| ==> t[k] == if k < f then es[k] else es[k + 1];
    if |es| > 1 {
      FindDrop(es, f, es[if f == 0 then 1 else 0].letter);
    }
    forall x | 0 <= x < |ns| ensures NodeOk(PopAt(ns, i, f), x) {
      assert NodeOk(ns, x);
    }
  }

  /** Dropping the dead node for `u + [c]` and the edge to it. */
  lemma IndexedPop(ns: seq<TrieNode>, ix: map<Word, nat>, u: Word, f: nat)
    requires Arena(ns) && Indexed(ns, ix) && u in ix && f < |ns[ix[u]].edges|
    requires ns[ix[u]].edges[f].child < |ns| && ns[ns[ix[u]].edges[f].child].edges == []
    ensures u + [ns[ix[u]].edges[f].letter] in ix
    ensures Indexed(PopAt(ns, ix[u], f), ix - {u + [ns[ix[u]].edges[f].letter]})
  {
    var i := ix[u];
    var c := ns[i].edges[f].letter;
    assert Down(ns, ix, u);
    var ns2, ix2 := PopAt(ns, i, f), ix - {u + [c]};
    forall w | w in ix2 ensures Down(ns2, ix2, w) {
      PopDown(ns, ix, u, f, w);
    }
    forall w | w in ix2 && w != [] ensures Up(ns2, ix2, w) {
      PopUp(ns, ix, u, f, w);
    }
  }

  lemma PopDown(ns: seq<TrieNode>, ix: map<Word, nat>, u: Word, f: nat, w: Word)
    requires Arena(ns) && Indexed(ns, ix) && u in ix && f < |ns[ix[u]].edges|
    requires ns[ix[u]].edges[f].child < |ns| && ns[ns[ix[u]].edges[f].child].edges == []
    requires w in ix && w != u + [ns[ix[u]].edges[f].letter]
    ensures Down(PopAt(ns, ix[u], f), ix - {u + [ns[ix[u]].edges[f].letter]}, w)
  {
    var i := ix[u];
    var es := ns[i].edges;
    var c := es[f].letter;
    assert Down(ns, ix, w) && Down(ns, ix, u);
    assert NodeOk(ns, i);
    if ix[w] == i {
      var t := es[..f] + es[f + 1..];
      assert forall k :: 0 <= k < |t| ==> t[k] == if k < f then es[k] else es[k + 1];
      forall k | 0 <= k < |t| ensures w + [t[k].letter] != u + [c] {
        assert (w + [t[k].letter])[|w|] == t[k].letter;
      }
    } else {
      forall k | 0 <= k < |ns[ix[w]].edges| ensures w + [ns[ix[w]].edges[k].letter] != u + [c] {
        var x := w + [ns[ix[w]].edges[k].letter];
        assert x[..|x| - 1] == w;
        assert (u + [c])[..|u|] == u;
      }
    }
  }

  lemma PopUp(ns: seq<TrieNode>, ix: map<Word, nat>, u: Word, f: nat, w: Word)
    requires Arena(ns) && Indexed(ns, ix) && u in ix && f < |ns[ix[u]].edges|
    requires ns[ix[u]].edges[f].child < |ns| && ns[ns[ix[u]].edges[f].child].edges == []
    requires w in ix && w != [] && w != u + [ns[ix[u]].edges[f].letter]
    ensures Up(PopAt(ns, ix[u], f), ix - {u + [ns[ix[u]].edges[f].letter]}, w)
  {
    var i := ix[u];
    var es := ns[i].edges;
    var c := es[f].letter;
    assert Down(ns, ix, u) && Up(ns, ix, w);
    assert NodeOk(ns, i);
    var p := w[..|w| - 1];
    assert w == p + [w[|w| - 1]];
    if p == u + [c] {
      Extends(ns, ix, p, w);
    }
    if ix[p] == i {
      FindDrop(es, f, w[|w| - 1]);
    }
  }

  /** What lies below `key[..depth+1]` lies below `key[..depth]`. */
  lemma Below(key: Word, depth: nat, w: Word)
    requires depth < |key| && key[..depth + 1] <= w
    ensures key[..depth] < w
  {
    assert w[..depth] == key[..depth];
  }

  lemma ShrunkPop(ns0: seq<TrieNode>, ix0: map<Word, nat>, key: Word, depth: nat, ix: map<Word, nat>)
    requires depth < |key| && Shrunk(ns0, ix0, key, key[..depth + 1], ix) && key[..depth + 1] in ix
    requires key[..depth + 1] == key || !EndAt(ns0, ix0, key[..depth + 1])
    ensures Shrunk(ns0, ix0, key, key[..depth], ix - {key[..depth + 1]})
  {
    forall w | w in ix0 && w !in ix - {key[..depth + 1]} ensures key[..depth] < w {
      Below(key, depth, w);
    }
  }

  lemma KeptPop(ns0: seq<TrieNode>, ix0: map<Word, nat>, key: Word, depth: nat,
                ns: seq<TrieNode>, ix: map<Word, nat>, f: nat)
    requires depth < |key| && Kept(ns0, ix0, key, key[..depth + 1], ns, ix)
    requires key[..depth] in ix0 && ix0[key[..depth]] < |ns| && f < |ns[ix0[key[..depth]]].edges|
    requires forall w :: w in ix0 && ix0[w] == ix0[key[..depth]] ==> w == key[..depth]
    ensures Kept(ns0, ix0, key, key[..depth], PopAt(ns, ix0[key[..depth]], f), ix - {key[..depth + 1]})
  {
    forall w | w in ix0 && key[..depth + 1] <= w ensures key[..depth] <= w {
      Below(key, depth, w);
    }
  }

  lemma LivePop(ns: seq<TrieNode>, ix: map<Word, nat>, u: Word, c: char, f: nat)
    requires Indexed(ns, ix) && LiveBut(ns, ix, u + [c]) && u in ix && f < |ns[ix[u]].edges|
    ensures LiveBut(PopAt(ns, ix[u], f), ix - {u + [c]}, u)
  {
  }

  /** `root.edges.pop(letter)` once the child for `key[..depth+1]` came
      back dead: the pruning reaches up to `key[..depth]`. */
  lemma PopEdge(ns0: seq<TrieNode>, ix0: map<Word, nat>, key: Word, depth: nat,
                ns: seq<TrieNode>, ix: map<Word, nat>, f: nat)
    requires Inv(ns0, ix0) && depth < |key| && key[..depth] in ix0
    requires f < |ns0[ix0[key[..depth]]].edges| && ns0[ix0[key[..depth]]].edges[f].letter == key[depth]
    requires Pruned(ns0, ix0, key, key[..depth + 1], ns, ix)
    requires !(ns[ix[key[..depth + 1]]].edges != [] || ns[ix[key[..depth + 1]]].isEnd)
    ensures ix0[key[..depth]] < |ns| && ns[ix0[key[..depth]]] == ns0[ix0[key[..depth]]]
    ensures Pruned(ns0, ix0, key, key[..depth], PopAt(ns, ix0[key[..depth]], f), ix - {key[..depth + 1]})
  {
    var u, u' := key[..depth], key[..depth + 1];
    var i := ix0[u];
    assert u + [key[depth]] == u';
    assert NodeOk(ns0, i);
    FindUnique(ns0[i].edges, f, key[depth]);
    Step(ns0, ix0, u, key[depth]);
    assert |u| < |u'|;
    Reaches(ns, ix, u', u);
    ArenaPop(ns, i, f);
    IndexedPop(ns, ix, u, f);
    ShrunkPop(ns0, ix0, key, depth, ix);
    KeptPop(ns0, ix0, key, depth, ns, ix, f);
    LivePop(ns, ix, u, key[depth], f);
  }

  /** `delete` is done: the pruned arena holds `AfterDelete`. */
  lemma DeleteView(ns0: seq<TrieNode>, ix0: map<Word, nat>, key: Word, ns: seq<TrieNode>, ix: map<Word, nat>)
    requires Inv(ns0, ix0) && Pruned(ns0, ix0, key, [], ns, ix)
    ensures Inv(ns, ix) && ViewOf(ns, ix) == AfterDelete(ViewOf(ns0, ix0), key)
  {
    DeletedWords(ns0, ix0, key, ns, ix);
    DeletedPaths(ns0, ix0, key, ns, ix);
  }

  /** The words left after pruning are the old ones but `key`. */
  lemma DeletedWords(ns0: seq<TrieNode>, ix0: map<Word, nat>, key: Word, ns: seq<TrieNode>, ix: map<Word, nat>)
    requires Inv(ns0, ix0) && Pruned(ns0, ix0, key, [], ns, ix)
    ensures ViewOf(ns, ix).words == ViewOf(ns0, ix0).words - {key}
  {
    var c, c2 := ViewOf(ns0, ix0), ViewOf(ns, ix);
    forall w | w in c2.words ensures w in c.words - {key} { }
    forall w | w in c.words - {key} ensures w in c2.words { }
  }

  /** The paths left after pruning are exactly those of the words left. */
  lemma DeletedPaths(ns0: seq<TrieNode>, ix0: map<Word, nat>, key: Word, ns: seq<TrieNode>, ix: map<Word, nat>)
    requires Inv(ns0, ix0) && Pruned(ns0, ix0, key, [], ns, ix)
    requires ViewOf(ns, ix).words == ViewOf(ns0, ix0).words - {key}
    ensures Inv(ns, ix) && ViewOf(ns, ix).values.Keys == AfterDelete(ViewOf(ns0, ix0), key).values.Keys
  {
    IndexPaths(ns, ix);
    IndexPaths(ns0, ix0);
    PathsSub(ViewOf(ns, ix).words, ViewOf(ns0, ix0).words);
  }

  // ---------------------------------------------------------------------
  // The trie
  // ---------------------------------------------------------------------

  /** What `search_all_values` returns: the `ValueError` it hands back
      (not raises) for an empty word, or the list of words. */
  datatype Listing = EmptyQuery | Listed(words: seq<Word>)

  /** How `delete` and `_deleteUtil` end: the `ValueError` handed back for
      an empty word, the `ValueError` raised for a missing path, or the
      boolean returned. */
  datatype Outcome = EmptyKey | NotFound | Returned(flag: bool)

  class Trie {
    var nodes: seq<TrieNode>
    /** The path that reaches each node. */
    ghost var index: map<Word, nat>

    ghost predicate Valid()
      reads this
    {
      Inv(nodes, index)
    }

    ghost function View(): Content
      reads this
    {
      ViewOf(nodes, index)
    }

    constructor()
      ensures Valid() && View() == Empty
    {
      nodes := [Fresh(None)];
      index := map[[] := 0];
      new;
      assert View().values == map[[] := 0];
    }

    /** `insert(k, v)`: walk down `k`, creating missing nodes and raising
        every node passed to at least `v`; then end-mark the last one. */
    method Insert(k: Word, v: int)
      requires Valid()
      modifies this
      ensures Valid() && View() == AfterInsert(old(View()), k, v)
    {
      ghost var ns0, ix0 := nodes, index;
      var cur: nat := 0;
      WalkStart(nodes, index, k, v);
      for n := 0 to |k|
        invariant Walk(ns0, ix0, k, v, n, n, nodes, index, cur)
      {
        cur := Advance(ns0, ix0, k, v, n, cur);
      }
      Finish(ns0, ix0, k, v, nodes, index, cur);
      nodes := nodes[cur := nodes[cur].(isEnd := true)];
    }

    /** One pass of `insert`'s loop: follow or create the edge for
        `k[n]`, then raise the node reached to `v`. */
    method Advance(ghost ns0: seq<TrieNode>, ghost ix0: map<Word, nat>, k: Word, v: int, n: nat, cur: nat)
      returns (next: nat)
      requires Walk(ns0, ix0, k, v, n, n, nodes, index, cur) && n < |k|
      modifies this
      ensures Walk(ns0, ix0, k, v, n + 1, n + 1, nodes, index, next)
    {
      var f := Find(nodes[cur].edges, k[n]);
      if f.Some? {
        Descend(ns0, ix0, k, v, n, nodes, index, cur, f.value);
        next := nodes[cur].edges[f.value].child;
      } else {
        Extend(ns0, ix0, k, v, n, nodes, index, cur);
        next := |nodes|;
        nodes := AddChild(nodes, cur, k[n]);
        index := index[k[..n + 1] := next];
      }
      Raise(ns0, ix0, k, v, n, nodes, index, next);
      if nodes[next].value < v {
        nodes := nodes[next := nodes[next].(value := v)];
      }
    }

    /** `search(word)`: -1 when the path breaks off, otherwise the node's
        value, or its character when the value is 0. */
    method Search(word: Word) returns (r: Hit)
      requires Valid()
      ensures r == Lookup(View(), word)
    {
      var cur := 0;
      for n := 0 to |word|
        invariant word[..n] in index && index[word[..n]] == cur
      {
        var f := Find(nodes[cur].edges, word[n]);
        if f.None? {
          Absent(nodes, index, word, n);
          return Number(Missing);
        }
        Step(nodes, index, word[..n], word[n]);
        assert word[..n] + [word[n]] == word[..n + 1];
        cur := nodes[cur].edges[f.value].child;
      }
      assert word[..|word|] == word;
      KeyOf(nodes, index, word);
      r := if nodes[cur].value != 0 then Number(nodes[cur].value) else Label(nodes[cur].key);
    }

    /** `search_all_values(word)`: the words that start with `word`, in
        the order of a depth-first walk of the dicts; an empty list when
        the path breaks off, and an error for an empty `word`. */
    method SearchAllValues(word: Word) returns (r: Listing)
      requires Valid()
      ensures r.EmptyQuery? <==> word == []
      ensures r.Listed? ==> forall q :: q in r.words <==> q in WordsUnder(View(), word)
      ensures r.Listed? ==> Unrepeated(r.words)
      ensures r.Listed? && word in index ==> r.words == Prefixed(word, Collect(nodes, index[word]))
      ensures word != [] && word !in View().values ==> r == Listed([])
    {
      if word == [] {
        return EmptyQuery;
      }
      var crawl := 0;
      for n := 0 to |word|
        invariant word[..n] in index && index[word[..n]] == crawl
      {
        var f := Find(nodes[crawl].edges, word[n]);
        if f.None? {
          Absent(nodes, index, word, n);
          forall q | q in View().words ensures !(word <= q) {
            if word <= q {
              Reaches(nodes, index, q, word);
            }
          }
          return Listed([]);
        }
        Step(nodes, index, word[..n], word[n]);
        assert word[..n] + [word[n]] == word[..n + 1];
        crawl := nodes[crawl].edges[f.value].child;
      }
      assert word[..|word|] == word;
      ListsUnder(nodes, index, word);
      r := Listed(Prefixed(word, Collect(nodes, crawl)));
    }

    /** `_deleteUtil(root, key, depth)` at the node `i` for `key[..depth]`:
        raises when the path of `key` breaks off, before changing anything;
        otherwise clears `key`'s end mark and, on the way back up, pops
        every edge to a node left with no word and no child. The flag says
        whether node `i` is still live. */
    method DeleteUtil(i: nat, key: Word, depth: nat) returns (r: Outcome)
      requires Valid() && depth <= |key| && key[..depth] in index && index[key[..depth]] == i
      modifies this
      decreases |key| - depth
      ensures !r.EmptyKey?
      ensures r.NotFound? <==> key !in old(index)
      ensures r.NotFound? ==> nodes == old(nodes) && index == old(index)
      ensures r.Returned? ==>
        (Pruned(old(nodes), old(index), key, key[..depth], nodes, index) &&
         i < |nodes| && r.flag == (nodes[i].edges != [] || nodes[i].isEnd))
    {
      if depth == |key| {
        assert key[..depth] == key;
        ClearEnd(nodes, index, key);
        if nodes[i].isEnd {
          nodes := nodes[i := nodes[i].(isEnd := false)];
        } else {
          assert nodes[i].(isEnd := false) == nodes[i];
        }
        return Returned(nodes[i].edges != []);
      }
      var letter := key[depth];
      var f := Find(nodes[i].edges, letter);
      if f.None? {
        Absent(nodes, index, key, depth);
        return NotFound;
      }
      Step(nodes, index, key[..depth], letter);
      assert key[..depth] + [letter] == key[..depth + 1];
      ghost var ns0, ix0 := nodes, index;
      var flag := DeleteUtil(nodes[i].edges[f.value].child, key, depth + 1);
      if flag.NotFound? {
        return NotFound;
      }
      if flag.flag {
        KeepAll(ns0, ix0, key, depth, nodes, index);
        return Returned(true);
      }
      PopEdge(ns0, ix0, key, depth, nodes, index, f.value);
      nodes := PopAt(nodes, i, f.value);
      index := index - {key[..depth + 1]};
      return Returned(nodes[i].edges != [] || nodes[i].isEnd);
    }

    /** `delete(word)`: an error handed back for an empty word, an error
        raised (and nothing changed) for a path that is not there;
        otherwise the trie holds `AfterDelete`, and the result says whether
        it still holds a word. */
    method Delete(word: Word) returns (r: Outcome)
      requires Valid()
      modifies this
      ensures Valid()
      ensures r.EmptyKey? <==> word == []
      ensures r.NotFound? <==> word != [] && word !in old(View()).values
      ensures !r.Returned? ==> View() == old(View())
      ensures r.Returned? ==> View() == AfterDelete(old(View()), word) && r.flag == (View().words != {})
    {
      if word == [] {
        return EmptyKey;
      }
      ghost var ns0, ix0 := nodes, index;
      assert word[..0] == [];
      r := DeleteUtil(0, word, 0);
      if r.Returned? {
        DeleteView(ns0, ix0, word, nodes, index);
        RootHolds(nodes, index);
      }
    }
  }

  /** The script of trie.py on the class: four insertions, `search` for
      `hacker`, the listing under `hack`, `delete('blob')`, `search` for
      `blob`, `delete('hackerrank')` and the listing under `hacker`. */
  method Script() returns (hacker: Hit, hack: Listing, blob: Hit, rest: Listing)
    ensures hacker == Number(99) && blob == Number(Missing)
    ensures hack.Listed? && forall q :: q in hack.words <==> q in {"hackerearth", "hackerrank", "hackerahan"}
    ensures Unrepeated(hack.words)
    ensures rest.Listed? && forall q :: q in rest.words <==> q in {"hackerearth", "hackerahan"}
    ensures Unrepeated(rest.words)
  {
    var trie := new Trie();
    Fill(trie);
    hacker, hack := Query(trie);
    blob := DropBlob(trie);
    rest := DropRank(trie);
  }

  /** The four insertions of the script. */
  method Fill(trie: Trie)
    requires trie.Valid() && trie.View() == Empty
    modifies trie
    ensures trie.Valid() && trie.View() == Build(Sample)
  {
    trie.Insert("hackerearth", 10);
    trie.Insert("hackerrank", 9);
    trie.Insert("hackerahan", 99);
    trie.Insert("blob", 22);
    SampleSteps();
  }

  /** `search('hacker')` and `search_all_values('hack')` on the four words. */
  method Query(trie: Trie) returns (hacker: Hit, hack: Listing)
    requires trie.Valid() && trie.View() == Build(Sample)
    ensures hacker == Number(99)
    ensures hack.Listed? && forall q :: q in hack.words <==> q in {"hackerearth", "hackerrank", "hackerahan"}
    ensures Unrepeated(hack.words)
  {
    SampleBuilt();
    Listings(Build(Sample));
    hacker := trie.Search("hacker");
    hack := trie.SearchAllValues("hack");
    assert WordsUnder(trie.View(), "hack") == {"hackerearth", "hackerrank", "hackerahan"};
  }

  /** `delete('blob')`, after which `search('blob')` misses. */
  method DropBlob(trie: Trie) returns (blob: Hit)
    requires trie.Valid() && trie.View() == Build(Sample)
    modifies trie
    ensures blob == Number(Missing)
    ensures trie.Valid() && trie.View() == AfterDelete(Build(Sample), "blob")
  {
    Scenario();
    var gone := trie.Delete("blob");
    blob := trie.Search("blob");
  }

  /** `delete('hackerrank')`, then the listing under `hacker`. */
  method DropRank(trie: Trie) returns (rest: Listing)
    requires trie.Valid() && trie.View() == AfterDelete(Build(Sample), "blob")
    modifies trie
    ensures rest.Listed? && forall q :: q in rest.words <==> q in {"hackerearth", "hackerahan"}
    ensures Unrepeated(rest.words)
  {
    SampleBuilt();
    Listings(Build(Sample));
    var gone := trie.Delete("hackerrank");
    rest := trie.SearchAllValues("hacker");
    assert WordsUnder(trie.View(), "hacker") == {"hackerearth", "hackerahan"};
  }
}
