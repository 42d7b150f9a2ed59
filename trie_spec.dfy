/** What the trie of trie.py holds, seen from outside: the end-marked
    words, and the `value` of every node, named by the path of characters
    that reaches it from the root. `insert`, `search` and `delete` are
    functions on that view; the class in module `Trie` is proved to follow
    them. */
module TrieSpec {

  datatype Option<T> = None | Some(value: T)

  type Word = seq<char>

  /** The end-marked words and the value of the node at each path. */
  datatype Content = Content(words: set<Word>, values: map<Word, int>)

  /** What `search` returns: a node's value, a node's character (`None`
      for the root), or -1 for a missing path. */
  datatype Hit = Number(n: int) | Label(key: Option<char>)

  /** The sentinel `search` returns for a path that is not there. */
  const Missing: int := -1

  /** The root only: what a new trie holds. */
  const Empty: Content := Content({}, map[[] := 0])

  /** Every prefix of every word, and the root's empty path. */
  function Paths(words: set<Word>): set<Word>
  {
    {[]} + set w, m | w in words && 0 <= m <= |w| :: w[..m]
  }

  /** The prefixes of `k`, from the empty one to `k` itself. */
  function PrefixSet(k: Word): set<Word>
  {
    set m | 0 <= m <= |k| :: k[..m]
  }

  function Max(a: int, b: int): int
  {
    if a < b then b else a
  }

  function Get(values: map<Word, int>, p: Word): int
  {
    if p in values then values[p] else 0
  }

  /** What every reachable trie satisfies: there is a node exactly for
      each prefix of a word (no branch leads nowhere), values are never
      negative, and the root's value stays 0. */
  predicate Coherent(c: Content)
  {
    c.values.Keys == Paths(c.words) && [] in c.values && c.values[[]] == 0 &&
    forall p :: p in c.values ==> c.values[p] >= 0
  }

  /** `insert(k, v)`: `k` becomes a word; every node on its path below the
      root, new nodes starting from 0, is raised to `v` when it held less. */
  function AfterInsert(c: Content, k: Word, v: int): Content
  {
    Content(c.words + {k},
            map p | p in c.values.Keys + PrefixSet(k) ::
              if p != [] && p <= k then Max(Get(c.values, p), v) else Get(c.values, p))
  }

  /** `delete(w)` for a path that is there: `w` is no longer a word, and
      every node that no longer leads to a word is gone; the values of the
      others do not change. */
  function AfterDelete(c: Content, w: Word): Content
  {
    Content(c.words - {w}, map p | p in c.values && p in Paths(c.words - {w}) :: c.values[p])
  }

  /** `search(w)`: -1 for a missing path; otherwise the node's value if it
      is not 0, else its character. */
  function Lookup(c: Content, w: Word): Hit
  {
    if w !in c.values then Number(Missing)
    else if c.values[w] != 0 then Number(c.values[w])
    else Label(if w == [] then None else Some(w[|w| - 1]))
  }

  /** The words that `search_all_values(p)` lists. */
  function WordsUnder(c: Content, p: Word): set<Word>
  {
    set w | w in c.words && p <= w
  }

  // ---------------------------------------------------------------------
  // Paths
  // ---------------------------------------------------------------------

  lemma InPaths(words: set<Word>, w: Word, p: Word)
    requires w in words && p <= w
    ensures p in Paths(words)
  {
    assert w[..|p|] == p;
  }

  /** A path is the empty one or a prefix of some word. */
  lemma PathOf(words: set<Word>, p: Word) returns (w: Word)
    requires p in Paths(words) && p != []
    ensures w in words && p <= w
  {
    var w', m :| w' in words && 0 <= m <= |w'| && p == w'[..m];
    w := w';
  }

  lemma NotOnPath(k: Word, p: Word)
    requires p !in PrefixSet(k)
    ensures !(p <= k)
  {
    if p <= k {
      OnPath(k, p);
    }
  }

  lemma OnPath(k: Word, p: Word)
    requires p <= k
    ensures p in PrefixSet(k)
  {
    assert k[..|p|] == p;
  }

  lemma FromPath(k: Word, p: Word)
    requires p in PrefixSet(k)
    ensures p <= k
  {
    var m :| 0 <= m <= |k| && p == k[..m];
  }

  lemma PathsAdd(words: set<Word>, k: Word)
    ensures Paths(words + {k}) == Paths(words) + PrefixSet(k)
  {
    forall p | p in Paths(words + {k}) ensures p in Paths(words) + PrefixSet(k) {
      if p != [] {
        var w := PathOf(words + {k}, p);
        if w == k { assert k[..|p|] == p; } else { InPaths(words, w, p); }
      }
    }
    forall p | p in PrefixSet(k) ensures p in Paths(words + {k}) {
      var m :| 0 <= m <= |k| && p == k[..m];
      InPaths(words + {k}, k, p);
    }
  }

  lemma PathsSub(small: set<Word>, large: set<Word>)
    requires small <= large
    ensures Paths(small) <= Paths(large)
  {
    forall p | p in Paths(small) ensures p in Paths(large) {
      if p != [] {
        var w := PathOf(small, p);
        InPaths(large, w, p);
      }
    }
  }

  // ---------------------------------------------------------------------
  // The invariant
  // ---------------------------------------------------------------------

  lemma EmptyCoherent()
    ensures Coherent(Empty)
  {
    assert Paths({}) == {[]};
  }

  /** `insert` keeps the invariant. */
  lemma InsertCoherent(c: Content, k: Word, v: int)
    requires Coherent(c)
    ensures Coherent(AfterInsert(c, k, v))
  {
    PathsAdd(c.words, k);
  }

  /** `delete` keeps the invariant. */
  lemma DeleteCoherent(c: Content, w: Word)
    requires Coherent(c)
    ensures Coherent(AfterDelete(c, w))
  {
    PathsSub(c.words - {w}, c.words);
  }

  // ---------------------------------------------------------------------
  // search
  // ---------------------------------------------------------------------

  /** `search` returns -1 exactly when the path is missing. */
  lemma LookupMissing(c: Content, w: Word)
    requires Coherent(c)
    ensures Lookup(c, w) == Number(Missing) <==> w !in Paths(c.words)
  {
  }

  /** After `insert(k, v)`, `k` is a word and every node on its path below
      the root holds at least `v` and at least what it held before; so
      `search(k)` finds the path, and a positive `v` or more. */
  lemma InsertFound(c: Content, k: Word, v: int)
    requires Coherent(c)
    ensures k in AfterInsert(c, k, v).words
    ensures forall p :: p in PrefixSet(k) && p != [] ==>
      p in AfterInsert(c, k, v).values && AfterInsert(c, k, v).values[p] >= v &&
      AfterInsert(c, k, v).values[p] >= Get(c.values, p)
    ensures Lookup(AfterInsert(c, k, v), k) != Number(Missing)
    ensures k != [] && v > 0 ==> Lookup(AfterInsert(c, k, v), k).Number? && Lookup(AfterInsert(c, k, v), k).n >= v
  {
    assert k[..|k|] == k;
    forall p | p in PrefixSet(k) && p != [] ensures p <= k {
      var m :| 0 <= m <= |k| && p == k[..m];
    }
  }

  /** `insert` leaves the values of nodes off the path of `k` alone. */
  lemma InsertElsewhere(c: Content, k: Word, v: int, p: Word)
    requires Coherent(c) && p in c.values && !(p <= k)
    ensures p in AfterInsert(c, k, v).values && AfterInsert(c, k, v).values[p] == c.values[p]
  {
  }

  // ---------------------------------------------------------------------
  // delete
  // ---------------------------------------------------------------------

  /** After `delete(w)` a nonempty path is still there exactly when some
      remaining word starts with it: the chain that led only to `w` is
      pruned, so `search` on it returns -1. */
  lemma DeletePrunes(c: Content, w: Word, q: Word)
    requires Coherent(c) && q != []
    ensures Lookup(AfterDelete(c, w), q) == Number(Missing) <==> forall x :: x in c.words - {w} ==> !(q <= x)
  {
    DeleteCoherent(c, w);
    var d := AfterDelete(c, w);
    if q in Paths(d.words) {
      var x := PathOf(d.words, q);
    }
    forall x | x in c.words - {w} && q <= x ensures q in Paths(d.words) {
      InPaths(d.words, x, q);
    }
  }

  /** Deleting a word that was just inserted as a new word gives back the
      words held before. */
  lemma InsertThenDelete(c: Content, k: Word, v: int)
    requires k !in c.words
    ensures AfterDelete(AfterInsert(c, k, v), k).words == c.words
  {
  }

  // ---------------------------------------------------------------------
  // A node's value is the largest value inserted through it
  // ---------------------------------------------------------------------

  /** The content after inserting the pairs of `ops` into a new trie. */
  function Build(ops: seq<(Word, int)>): Content
  {
    if ops == [] then Empty
    else AfterInsert(Build(ops[..|ops| - 1]), ops[|ops| - 1].0, ops[|ops| - 1].1)
  }

  /** The largest value among the pairs of `ops` whose word starts with
      `p`, and 0 when there is none or all are smaller. */
  function MaxThrough(ops: seq<(Word, int)>, p: Word): int
  {
    if ops == [] then 0
    else
      var m := MaxThrough(ops[..|ops| - 1], p);
      if p <= ops[|ops| - 1].0 then Max(m, ops[|ops| - 1].1) else m
  }

  /** The words of the pairs of `ops`. */
  function Inserted(ops: seq<(Word, int)>): set<Word>
  {
    if ops == [] then {} else Inserted(ops[..|ops| - 1]) + {ops[|ops| - 1].0}
  }

  /** After insertions only, the trie is coherent and its words are the
      inserted ones. */
  lemma {:induction false} BuildWords(ops: seq<(Word, int)>)
    ensures Coherent(Build(ops)) && Build(ops).words == Inserted(ops)
  {
    if ops == [] {
      EmptyCoherent();
    } else {
      BuildWords(ops[..|ops| - 1]);
      InsertCoherent(Build(ops[..|ops| - 1]), ops[|ops| - 1].0, ops[|ops| - 1].1);
    }
  }

  /** After insertions only, the node at every nonempty path holds the
      largest value inserted through it. */
  lemma {:induction false} BuildValues(ops: seq<(Word, int)>, p: Word)
    requires p in Build(ops).values && p != []
    ensures Build(ops).values[p] == MaxThrough(ops, p)
  {
    var init := ops[..|ops| - 1];
    var (k, v) := ops[|ops| - 1];
    var before := Build(init);
    if p in before.values {
      BuildValues(init, p);
    } else {
      assert p <= k by {
        assert p in PrefixSet(k);
        var m :| 0 <= m <= |k| && p == k[..m];
      }
      NoneThrough(init, p);
    }
  }

  /** No pair went through a path that no inserted word starts with. */
  lemma {:induction false} NoneThrough(ops: seq<(Word, int)>, p: Word)
    requires p !in Build(ops).values
    ensures MaxThrough(ops, p) == 0
  {
    if ops != [] {
      var init := ops[..|ops| - 1];
      var (k, v) := ops[|ops| - 1];
      assert p !in Build(init).values;
      NotOnPath(k, p);
      NoneThrough(init, p);
    }
  }

  // ---------------------------------------------------------------------
  // The example of the script
  // ---------------------------------------------------------------------

  /** The four insertions of the script, in dict order. */
  const Sample: seq<(Word, int)> := [("hackerearth", 10), ("hackerrank", 9), ("hackerahan", 99), ("blob", 22)]

  /** The four insertions one after the other. */
  lemma SampleSteps()
    ensures Build(Sample) ==
      AfterInsert(AfterInsert(AfterInsert(AfterInsert(Empty, "hackerearth", 10), "hackerrank", 9), "hackerahan", 99), "blob", 22)
  {
    var ops := Sample;
    var o1, o2, o3 := ops[..1], ops[..2], ops[..3];
    assert o1[..0] == [] && o1[0] == ("hackerearth", 10);
    assert Build(o1) == AfterInsert(Empty, "hackerearth", 10);
    assert o2[..1] == o1 && o2[1] == ("hackerrank", 9);
    assert Build(o2) == AfterInsert(Build(o1), "hackerrank", 9);
    assert o3[..2] == o2 && o3[2] == ("hackerahan", 99);
    assert Build(o3) == AfterInsert(Build(o2), "hackerahan", 99);
  }

  /** What the four insertions leave: the four words, and 99 at the node
      for `hacker`, the largest value inserted through it. */
  lemma SampleBuilt()
    ensures Coherent(Build(Sample))
    ensures Build(Sample).words == {"hackerearth", "hackerrank", "hackerahan", "blob"}
    ensures "hacker" in Build(Sample).values && Build(Sample).values["hacker"] == 99
  {
    var ops := Sample;
    var o1, o2, o3 := ops[..1], ops[..2], ops[..3];
    assert o1[..0] == [] && o2[..1] == o1 && o3[..2] == o2 && ops[..3] == o3;
    assert Inserted(o1) == {"hackerearth"};
    assert Inserted(o2) == {"hackerearth", "hackerrank"};
    assert Inserted(o3) == {"hackerearth", "hackerrank", "hackerahan"};
    BuildWords(ops);
    assert "hackerearth"[..6] == "hacker" && "hackerrank"[..6] == "hacker" && "hackerahan"[..6] == "hacker";
    InPaths(Build(ops).words, "hackerearth", "hacker");
    BuildValues(ops, "hacker");
    assert MaxThrough(o1, "hacker") == 10;
    assert MaxThrough(o2, "hacker") == 10;
    assert MaxThrough(o3, "hacker") == 99;
    assert !("hacker" <= "blob");
  }

  /** After the four insertions `search('hacker')` finds 99; after
      `delete('blob')` the whole chain of `blob` is gone, so
      `search('blob')` returns -1, while `hacker` keeps its 99. */
  lemma Scenario()
    ensures Lookup(Build(Sample), "hacker") == Number(99)
    ensures Lookup(AfterDelete(Build(Sample), "blob"), "blob") == Number(Missing)
    ensures Lookup(AfterDelete(Build(Sample), "blob"), "hacker") == Number(99)
  {
    SampleBuilt();
    Deleted(Build(Sample));
  }

  lemma Deleted(c: Content)
    requires Coherent(c) && c.words == {"hackerearth", "hackerrank", "hackerahan", "blob"}
    requires "hacker" in c.values && c.values["hacker"] == 99
    ensures Lookup(AfterDelete(c, "blob"), "blob") == Number(Missing)
    ensures Lookup(AfterDelete(c, "blob"), "hacker") == Number(99)
  {
    var rest := c.words - {"blob"};
    assert rest == {"hackerearth", "hackerrank", "hackerahan"};
    assert forall x :: x in rest ==> x[0] == 'h' && !("blob" <= x);
    DeletePrunes(c, "blob", "blob");
    assert "hackerearth"[..6] == "hacker";
    InPaths(rest, "hackerearth", "hacker");
  }

  /** The listings of the script: under `hack` all three `hacker` words;
      after `blob` and then `hackerrank` are deleted, the two left under
      `hacker`. */
  lemma Listings(c: Content)
    requires c.words == {"hackerearth", "hackerrank", "hackerahan", "blob"}
    ensures WordsUnder(c, "hack") == {"hackerearth", "hackerrank", "hackerahan"}
    ensures WordsUnder(AfterDelete(AfterDelete(c, "blob"), "hackerrank"), "hacker") == {"hackerearth", "hackerahan"}
  {
    assert "hackerearth"[..4] == "hack" && "hackerrank"[..4] == "hack" && "hackerahan"[..4] == "hack";
    assert "hack"[0] != "blob"[0];
    assert "hackerearth"[..6] == "hacker" && "hackerahan"[..6] == "hacker";
    assert AfterDelete(AfterDelete(c, "blob"), "hackerrank").words == {"hackerearth", "hackerahan"};
  }
}
