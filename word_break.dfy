/** The dynamic-programming word break of word_break_ii.py (`wordbreak`):
    every way of splitting a string into dictionary words, each split
    written as a sentence whose words are separated by single spaces.

    `dp[i]` holds the sentences for the first `i` characters. For each end
    `i` the source tries every start `j < i` in ascending order and, when
    `string[j:i]` is a dictionary word, appends that word to every sentence
    of `dp[j]`.

    The source slices and measures the module-level variable `s` instead of
    its parameter (lines 46 and 52); its only caller passes that same `s`,
    so this model reads the parameter throughout. */
module WordBreak {

  // ---------------------------------------------------------------------
  // Splits and sentences
  // ---------------------------------------------------------------------

  /** The words of a split written one after the other. */
  function Concat(seg: seq<string>): string
  {
    if seg == [] then "" else Concat(seg[..|seg| - 1]) + seg[|seg| - 1]
  }

  /** The words of a split separated by single spaces. */
  function Join(seg: seq<string>): string
  {
    if seg == [] then ""
    else if |seg| == 1 then seg[0]
    else Join(seg[..|seg| - 1]) + " " + seg[|seg| - 1]
  }

  /** `seg` splits `t` into non-empty words of the dictionary. */
  predicate IsSplit(t: string, words: set<string>, seg: seq<string>)
  {
    Concat(seg) == t && forall m :: 0 <= m < |seg| ==> seg[m] in words && seg[m] != ""
  }

  predicate NoDup<T(==)>(xs: seq<T>)
  {
    forall a, b :: 0 <= a < b < |xs| ==> xs[a] != xs[b]
  }

  /** Where the last word of a split starts. */
  function LastStart(seg: seq<string>): nat
    requires seg != []
  {
    |Concat(seg[..|seg| - 1])|
  }

  // ---------------------------------------------------------------------
  // Reference definition: all splits, in the order the table builds them
  // ---------------------------------------------------------------------

  function Extend(segs: seq<seq<string>>, w: string): (r: seq<seq<string>>)
    ensures |r| == |segs| && forall k :: 0 <= k < |segs| ==> r[k] == segs[k] + [w]
  {
    seq(|segs|, k requires 0 <= k < |segs| => segs[k] + [w])
  }

  /** All splits of `s[..i]`, grouped by the start of their last word in
      ascending order. */
  function Segs(s: string, words: set<string>, i: nat): seq<seq<string>>
    requires i <= |s|
    decreases i, 1
  {
    if i == 0 then [[]] else SegsUpTo(s, words, i, i)
  }

  /** The splits of `s[..i]` whose last word starts before `j`. */
  function SegsUpTo(s: string, words: set<string>, i: nat, j: nat): seq<seq<string>>
    requires j <= i <= |s|
    decreases i, 0, j
  {
    if j == 0 then []
    else
      SegsUpTo(s, words, i, j - 1)
      + (if s[j - 1..i] in words then Extend(Segs(s, words, j - 1), s[j - 1..i]) else [])
  }

  function Sentences(segs: seq<seq<string>>): (r: seq<string>)
    ensures |r| == |segs| && forall k :: 0 <= k < |segs| ==> r[k] == Join(segs[k])
  {
    seq(|segs|, k requires 0 <= k < |segs| => Join(segs[k]))
  }

  /** One `extend` of the table: the word after every sentence, with no
      separator after the empty sentence. */
  function Attach(sentences: seq<string>, w: string): (r: seq<string>)
    ensures |r| == |sentences|
    ensures forall k :: 0 <= k < |sentences| ==>
      r[k] == if sentences[k] != "" then sentences[k] + " " + w else w
  {
    seq(|sentences|, k requires 0 <= k < |sentences| =>
      if sentences[k] != "" then sentences[k] + " " + w else w)
  }

  // ---------------------------------------------------------------------
  // The table
  // ---------------------------------------------------------------------

  method WordBreak(str: string, wordDict: seq<string>) returns (r: seq<string>)
    ensures r == Sentences(Segs(str, set w | w in wordDict, |str|))
  {
    var words := set w | w in wordDict;
    var n := |str|;
    var dp: seq<seq<string>> := [[""]] + seq(n, _ => []);
    for i := 1 to n + 1
      invariant |dp| == n + 1
      invariant forall k :: 0 <= k < i ==> dp[k] == Sentences(Segs(str, words, k))
      invariant forall k :: i <= k <= n ==> dp[k] == []
    {
      for j := 0 to i
        invariant |dp| == n + 1
        invariant forall k :: 0 <= k < i ==> dp[k] == Sentences(Segs(str, words, k))
        invariant dp[i] == Sentences(SegsUpTo(str, words, i, j))
        invariant forall k :: i < k <= n ==> dp[k] == []
      {
        Column(str, words, i, j);
        if dp[j] == [] {
          continue;
        }
        var sub := str[j..i];
        if sub in words {
          dp := dp[i := dp[i] + Attach(dp[j], sub)];
        }
      }
    }
    r := dp[n];
  }

  /** One pass of the inner loop: the sentences for `s[..i]` whose last
      word starts at `j` are those of `s[..j]` with `s[j..i]` attached. */
  lemma Column(s: string, words: set<string>, i: nat, j: nat)
    requires j < i <= |s|
    ensures Sentences(SegsUpTo(s, words, i, j + 1)) ==
      Sentences(SegsUpTo(s, words, i, j)) + (if s[j..i] in words then Attach(Sentences(Segs(s, words, j)), s[j..i]) else [])
  {
    var front := SegsUpTo(s, words, i, j);
    if s[j..i] in words {
      var block := Extend(Segs(s, words, j), s[j..i]);
      AttachSentences(s, words, j, s[j..i]);
      assert Sentences(front + block) == Sentences(front) + Sentences(block);
    } else {
      assert SegsUpTo(s, words, i, j + 1) == front + [];
    }
  }

  /** Attaching a word to the sentences of `s[..j]` gives the sentences of
      the extended splits: the empty sentence occurs only for `j == 0`. */
  lemma AttachSentences(s: string, words: set<string>, j: nat, w: string)
    requires j <= |s|
    ensures Attach(Sentences(Segs(s, words, j)), w) == Sentences(Extend(Segs(s, words, j), w))
  {
    var segs := Segs(s, words, j);
    SegsSound(s, words, j);
    forall k | 0 <= k < |segs|
      ensures Attach(Sentences(segs), w)[k] == Join(segs[k] + [w])
    {
      var seg := segs[k];
      assert IsSplit(s[..j], words, seg);
      JoinEmpty(seg);
      var x := seg + [w];
      assert x[..|x| - 1] == seg;
    }
  }

  /** With non-empty words, only the empty split has the empty sentence. */
  lemma JoinEmpty(seg: seq<string>)
    requires forall m :: 0 <= m < |seg| ==> seg[m] != ""
    ensures Join(seg) == "" <==> seg == []
  {
    if |seg| > 1 {
      assert |Join(seg)| >= 1;
    }
  }

  // ---------------------------------------------------------------------
  // Properties of the reference definition
  // ---------------------------------------------------------------------

  /** Soundness: every listed split really splits `s[..i]` into words. */
  lemma {:induction false} SegsSound(s: string, words: set<string>, i: nat)
    requires i <= |s|
    ensures forall x :: x in Segs(s, words, i) ==> IsSplit(s[..i], words, x)
    decreases i, 1
  {
    if i > 0 {
      SegsUpToSound(s, words, i, i);
    }
  }

  lemma {:induction false} SegsUpToSound(s: string, words: set<string>, i: nat, j: nat)
    requires j <= i <= |s|
    ensures forall x :: x in SegsUpTo(s, words, i, j) ==> IsSplit(s[..i], words, x)
    decreases i, 0, j
  {
    if j > 0 {
      SegsUpToSound(s, words, i, j - 1);
      var w := s[j - 1..i];
      if w in words {
        SegsSound(s, words, j - 1);
        forall x | x in Extend(Segs(s, words, j - 1), w) ensures IsSplit(s[..i], words, x) {
          var k :| 0 <= k < |Segs(s, words, j - 1)| && x == Segs(s, words, j - 1)[k] + [w];
          var seg := Segs(s, words, j - 1)[k];
          assert IsSplit(s[..j - 1], words, seg);
          assert x[..|x| - 1] == seg;
          assert s[..j - 1] + w == s[..i];
        }
      }
    }
  }

  /** Every split listed before group `j` ends with a word that starts
      before `j`. */
  lemma {:induction false} SegsUpToLastStart(s: string, words: set<string>, i: nat, j: nat)
    requires j <= i <= |s|
    ensures forall x :: x in SegsUpTo(s, words, i, j) ==> x != [] && LastStart(x) < j
    decreases j
  {
    if j > 0 {
      SegsUpToLastStart(s, words, i, j - 1);
      var w := s[j - 1..i];
      if w in words {
        ExtendLastStart(s, words, j - 1, w);
      }
    }
  }

  /** The splits extended with a word all have that word starting at `j`. */
  lemma ExtendLastStart(s: string, words: set<string>, j: nat, w: string)
    requires j <= |s|
    ensures forall x :: x in Extend(Segs(s, words, j), w) ==> x != [] && LastStart(x) == j
  {
    SegsSound(s, words, j);
    forall x | x in Extend(Segs(s, words, j), w) ensures x != [] && LastStart(x) == j {
      var k :| 0 <= k < |Segs(s, words, j)| && x == Segs(s, words, j)[k] + [w];
      assert x[..|x| - 1] == Segs(s, words, j)[k];
      assert Segs(s, words, j)[k] in Segs(s, words, j);
      assert Concat(Segs(s, words, j)[k]) == s[..j];
    }
  }

  /** Non-empty splits in ascending order of the start of their last word. */
  predicate OrderedByLastStart(xs: seq<seq<string>>)
  {
    (forall k :: 0 <= k < |xs| ==> xs[k] != [])
    && forall a, b :: 0 <= a < b < |xs| ==> LastStart(xs[a]) <= LastStart(xs[b])
  }

  /** Ordering: the splits come in ascending order of the start of their
      last word. */
  lemma {:induction false} SegsUpToOrdered(s: string, words: set<string>, i: nat, j: nat)
    requires j <= i <= |s|
    ensures OrderedByLastStart(SegsUpTo(s, words, i, j))
    decreases j
  {
    if j > 0 {
      SegsUpToOrdered(s, words, i, j - 1);
      var w := s[j - 1..i];
      if w in words {
        SegsUpToLastStart(s, words, i, j - 1);
        ExtendLastStart(s, words, j - 1, w);
        var front := SegsUpTo(s, words, i, j - 1);
        var block := Extend(Segs(s, words, j - 1), w);
        assert SegsUpTo(s, words, i, j) == front + block;
        forall k | 0 <= k < |front + block| ensures (front + block)[k] != [] {
          if k < |front| {
            assert (front + block)[k] == front[k] && front[k] in front;
          } else {
            assert (front + block)[k] == block[k - |front|] && block[k - |front|] in block;
          }
        }
        forall a, b | 0 <= a < b < |front + block|
          ensures LastStart((front + block)[a]) <= LastStart((front + block)[b])
        {
          if b < |front| {
            assert (front + block)[a] == front[a] && (front + block)[b] == front[b];
          } else if a < |front| {
            assert (front + block)[a] == front[a] && front[a] in front;
            assert (front + block)[b] == block[b - |front|] && block[b - |front|] in block;
          } else {
            assert (front + block)[a] == block[a - |front|] && block[a - |front|] in block;
            assert (front + block)[b] == block[b - |front|] && block[b - |front|] in block;
          }
        }
      } else {
        assert SegsUpTo(s, words, i, j) == SegsUpTo(s, words, i, j - 1);
      }
    }
  }

  lemma SegsOrdered(s: string, words: set<string>, i: nat)
    requires 0 < i <= |s|
    ensures OrderedByLastStart(Segs(s, words, i))
  {
    SegsUpToOrdered(s, words, i, i);
  }

  lemma NoDupExtend(segs: seq<seq<string>>, w: string)
    requires NoDup(segs)
    ensures NoDup(Extend(segs, w))
  {
    forall a, b | 0 <= a < b < |segs| ensures Extend(segs, w)[a] != Extend(segs, w)[b] {
      var x, y := segs[a] + [w], segs[b] + [w];
      assert x[..|x| - 1] == segs[a] && y[..|y| - 1] == segs[b];
    }
  }

  /** No split is listed twice. */
  lemma {:induction false} SegsNoDup(s: string, words: set<string>, i: nat)
    requires i <= |s|
    ensures NoDup(Segs(s, words, i))
    decreases i, 1
  {
    if i > 0 {
      SegsUpToNoDup(s, words, i, i);
    }
  }

  lemma {:induction false} SegsUpToNoDup(s: string, words: set<string>, i: nat, j: nat)
    requires j <= i <= |s|
    ensures NoDup(SegsUpTo(s, words, i, j))
    decreases i, 0, j
  {
    if j > 0 {
      SegsUpToNoDup(s, words, i, j - 1);
      var w := s[j - 1..i];
      if w in words {
        SegsNoDup(s, words, j - 1);
        NoDupExtend(Segs(s, words, j - 1), w);
        SegsUpToLastStart(s, words, i, j - 1);
        ExtendLastStart(s, words, j - 1, w);
        var front := SegsUpTo(s, words, i, j - 1);
        var block := Extend(Segs(s, words, j - 1), w);
        forall a, b | 0 <= a < b < |front + block| ensures (front + block)[a] != (front + block)[b] {
          if a < |front| <= b {
            assert (front + block)[a] in front;
            assert (front + block)[b] in block;
          } else if |front| <= a {
            assert (front + block)[a] == block[a - |front|];
            assert (front + block)[b] == block[b - |front|];
          }
        }
      } else {
        assert SegsUpTo(s, words, i, j) == SegsUpTo(s, words, i, j - 1);
      }
    }
  }

  /** Group `j` sits inside every later prefix of the groups. */
  lemma {:induction false} SegsUpToGrows(s: string, words: set<string>, i: nat, j: nat, j': nat, x: seq<string>)
    requires j <= j' <= i <= |s|
    requires x in SegsUpTo(s, words, i, j)
    ensures x in SegsUpTo(s, words, i, j')
    decreases j'
  {
    if j' > j {
      SegsUpToGrows(s, words, i, j, j' - 1, x);
    }
  }

  /** Completeness: every split of `s[..i]` into dictionary words is listed. */
  lemma {:induction false} SegsComplete(s: string, words: set<string>, i: nat, seg: seq<string>)
    requires i <= |s|
    requires IsSplit(s[..i], words, seg)
    ensures seg in Segs(s, words, i)
    decreases i
  {
    if seg == [] {
      assert i == 0;
    } else {
      var init, w := seg[..|seg| - 1], seg[|seg| - 1];
      var j := |Concat(init)|;
      assert Concat(seg) == Concat(init) + w;
      assert j < i;
      assert s[..i][..j] == s[..j] && s[..i][j..] == s[j..i];
      assert IsSplit(s[..j], words, init) by {
        forall m | 0 <= m < |init| ensures init[m] in words && init[m] != "" {
          assert init[m] == seg[m];
        }
      }
      SegsComplete(s, words, j, init);
      var k :| 0 <= k < |Segs(s, words, j)| && Segs(s, words, j)[k] == init;
      assert Extend(Segs(s, words, j), w)[k] == seg;
      assert seg in SegsUpTo(s, words, i, j + 1);
      SegsUpToGrows(s, words, i, j + 1, i, seg);
    }
  }

  /** The table's entry for `i` is non-empty exactly when `s[..i]` can be
      split into dictionary words. */
  lemma SplittableIff(s: string, words: set<string>, i: nat)
    requires i <= |s|
    ensures Segs(s, words, i) != [] <==> exists seg :: IsSplit(s[..i], words, seg)
  {
    SegsSound(s, words, i);
    if seg :| IsSplit(s[..i], words, seg) {
      SegsComplete(s, words, i, seg);
    }
    if Segs(s, words, i) != [] {
      assert Segs(s, words, i)[0] in Segs(s, words, i);
    }
  }

  // ---------------------------------------------------------------------
  // Sentences
  // ---------------------------------------------------------------------

  /** Index of the last space of a string that has one. */
  function LastSpace(t: string): (k: nat)
    requires ' ' in t
    ensures k < |t| && t[k] == ' ' && ' ' !in t[k + 1..]
  {
    if t[|t| - 1] == ' ' then |t| - 1
    else
      assert ' ' in t[..|t| - 1] by {
        var k :| 0 <= k < |t| && t[k] == ' ';
        assert t[..|t| - 1][k] == ' ';
      }
      var k := LastSpace(t[..|t| - 1]);
      assert t[k + 1..] == t[..|t| - 1][k + 1..] + [t[|t| - 1]];
      k
  }

  /** A sentence cut at its single spaces. */
  function Split(t: string): seq<string>
    decreases |t|
  {
    if ' ' !in t then [t]
    else
      var k := LastSpace(t);
      Split(t[..k]) + [t[k + 1..]]
  }

  predicate NoSpace(w: string) { ' ' !in w }

  /** Round trip: cutting a sentence at its spaces gives back its words,
      when the words are non-empty and have no spaces. */
  lemma {:induction false} SplitJoin(seg: seq<string>)
    requires seg != []
    requires forall m :: 0 <= m < |seg| ==> NoSpace(seg[m])
    ensures Split(Join(seg)) == seg
    decreases |seg|
  {
    if |seg| > 1 {
      var init, w := seg[..|seg| - 1], seg[|seg| - 1];
      var t := Join(seg);
      assert t == Join(init) + " " + w;
      assert ' ' in t by { assert t[|Join(init)|] == ' '; }
      var k := LastSpace(t);
      assert k == |Join(init)|;
      assert t[..k] == Join(init) && t[k + 1..] == w;
      SplitJoin(init);
      assert init + [w] == seg;
    }
  }

  /** The words of a split written without separators give back the split
      string: removing the single-space separators of a sentence gives the
      input. */
  lemma SentenceWords(s: string, words: set<string>, x: string)
    requires |s| > 0
    requires forall w :: w in words ==> NoSpace(w)
    requires x in Sentences(Segs(s, words, |s|))
    ensures IsSplit(s, words, Split(x))
  {
    var segs := Segs(s, words, |s|);
    var k :| 0 <= k < |segs| && x == Join(segs[k]);
    SegsSound(s, words, |s|);
    assert s[..|s|] == s;
    assert IsSplit(s, words, segs[k]);
    assert segs[k] != [];
    SplitJoin(segs[k]);
  }

  /** The result of the table, stated on sentences: with a dictionary of
      words without spaces, every split of `s` appears as exactly one
      sentence. */
  lemma SentencesExact(s: string, words: set<string>, seg: seq<string>)
    requires forall w :: w in words ==> NoSpace(w)
    requires IsSplit(s, words, seg)
    ensures Join(seg) in Sentences(Segs(s, words, |s|))
    ensures NoDup(Sentences(Segs(s, words, |s|)))
  {
    assert s[..|s|] == s;
    SegsComplete(s, words, |s|, seg);
    var segs := Segs(s, words, |s|);
    var k :| 0 <= k < |segs| && segs[k] == seg;
    assert Sentences(segs)[k] == Join(seg);
    SegsNoDup(s, words, |s|);
    SegsSound(s, words, |s|);
    forall a, b | 0 <= a < b < |segs| ensures Join(segs[a]) != Join(segs[b]) {
      assert IsSplit(s, words, segs[a]) && IsSplit(s, words, segs[b]);
      SplitJoin(segs[a]);
      SplitJoin(segs[b]);
    }
  }

  /** The empty string has exactly the empty sentence. */
  lemma EmptyInput(words: set<string>)
    ensures Sentences(Segs("", words, 0)) == [""]
  {
  }

  /** A string with no split into dictionary words has no sentence. */
  lemma NoSplitNoSentence(s: string, words: set<string>)
    requires forall seg :: !IsSplit(s, words, seg)
    ensures Sentences(Segs(s, words, |s|)) == []
  {
    assert s[..|s|] == s;
    SplittableIff(s, words, |s|);
  }

  /** The source's commented example: `catsanddog` splits into dictionary
      words exactly two ways, and the table lists the split through `cat`
      first, because its last word starts earlier. */
  lemma CatsAndDog()
    ensures IsSplit("catsanddog", {"cat", "cats", "and", "sand", "dog"}, ["cats", "and", "dog"])
    ensures IsSplit("catsanddog", {"cat", "cats", "and", "sand", "dog"}, ["cat", "sand", "dog"])
    ensures Sentences(Segs("catsanddog", {"cat", "cats", "and", "sand", "dog"}, 10)) == ["cat sand dog", "cats and dog"]
  {
    ConcatCats();
    ConcatCat();
    CatsAndDogTable("catsanddog", {"cat", "cats", "and", "sand", "dog"});
    JoinsOfCatsAndDog();
  }

  /** The split through `cats` glues back to `catsanddog`. */
  lemma ConcatCats()
    ensures Concat(["cats", "and", "dog"]) == "catsanddog"
  {
    var a: seq<string> := ["cats", "and", "dog"];
    assert a[..2][..1] == ["cats"] && a[..2] == ["cats", "and"] && ["cats"][..0] == [];
    assert Concat(["cats"]) == "cats";
    assert Concat(["cats", "and"]) == "cats" + "and";
    assert Concat(a) == "cats" + "and" + "dog";
  }

  /** The split through `cat` glues back to `catsanddog`. */
  lemma ConcatCat()
    ensures Concat(["cat", "sand", "dog"]) == "catsanddog"
  {
    var b: seq<string> := ["cat", "sand", "dog"];
    assert b[..2][..1] == ["cat"] && b[..2] == ["cat", "sand"] && ["cat"][..0] == [];
    assert Concat(["cat"]) == "cat";
    assert Concat(["cat", "sand"]) == "cat" + "sand";
    assert Concat(b) == "cat" + "sand" + "dog";
  }

  /** Both splits of `catsanddog` read as sentences with single spaces. */
  lemma JoinsOfCatsAndDog()
    ensures Sentences([["cat", "sand", "dog"], ["cats", "and", "dog"]]) == ["cat sand dog", "cats and dog"]
  {
    assert Join(["cat", "sand"]) == "cat sand";
    assert Join(["cat", "sand", "dog"]) == "cat sand dog";
    assert Join(["cats", "and"]) == "cats and";
    assert Join(["cats", "and", "dog"]) == "cats and dog";
  }

  /** `s` is the string `catsanddog`, spelled out letter by letter. */
  predicate Spelled(s: string)
  {
    |s| == 10 && s[0] == 'c' && s[1] == 'a' && s[2] == 't' && s[3] == 's' && s[4] == 'a' &&
    s[5] == 'n' && s[6] == 'd' && s[7] == 'd' && s[8] == 'o' && s[9] == 'g'
  }

  /** The slices of `catsanddog` that the table looks up and does not find:
      the short ones, and those beginning `at` or `dd`. */
  lemma NotWord(w: string, d: set<string>)
    requires d == {"cat", "cats", "and", "sand", "dog"}
    requires |w| < 3 || (w[0] == 'a' && w[1] == 't') || (w[0] == 'd' && w[1] == 'd')
    ensures w !in d
  {
  }

  /** The entry of the table for `catsanddog` at the end of its last word;
      every other slice that ends there is not a dictionary word. */
  lemma CatsAndDogTable(s: string, d: set<string>)
    requires Spelled(s) && d == {"cat", "cats", "and", "sand", "dog"}
    ensures Segs(s, d, 10) == [["cat", "sand", "dog"], ["cats", "and", "dog"]]
  {
    TableSeven(s, d);
    TableTenStart(s, d);
    var e := Extend(Segs(s, d, 7), "dog");
    NotWord(s[8..10], d);
    NotWord(s[9..10], d);
    assert SegsUpTo(s, d, 10, 9) == e;
    assert SegsUpTo(s, d, 10, 10) == e;
    ExtendDog(Segs(s, d, 7));
  }

  /** Both splits of `catsand`, each followed by `dog`. */
  lemma ExtendDog(segs: seq<seq<string>>)
    requires segs == [["cat", "sand"], ["cats", "and"]]
    ensures Extend(segs, "dog") == [["cat", "sand", "dog"], ["cats", "and", "dog"]]
  {
    var e := Extend(segs, "dog");
    assert e[0] == ["cat", "sand", "dog"] && e[1] == ["cats", "and", "dog"];
  }

  /** The splits of `catsanddog` whose last word starts before `o`: the
      first word that ends the string is `dog`. */
  lemma TableTenStart(s: string, d: set<string>)
    requires Spelled(s) && d == {"cat", "cats", "and", "sand", "dog"}
    ensures SegsUpTo(s, d, 10, 8) == Extend(Segs(s, d, 7), "dog")
  {
    Short(s, d, 10, 6);
    NotWord(s[6..10], d);
    assert s[7..10] == "dog";
  }

  /** With no word longer than four letters, a split of `s[..i]` cannot
      end in a word that starts more than four letters before `i`. */
  lemma Short(s: string, words: set<string>, i: nat, j: nat)
    requires j + 4 <= i <= |s|
    requires forall w :: w in words ==> |w| <= 4
    ensures SegsUpTo(s, words, i, j) == []
    decreases j
  {
    if j > 0 {
      Short(s, words, i, j - 1);
      assert |s[j - 1..i]| > 4;
    }
  }

  /** The table entry for `catsand`. */
  lemma TableSeven(s: string, d: set<string>)
    requires Spelled(s) && d == {"cat", "cats", "and", "sand", "dog"}
    ensures Segs(s, d, 7) == [["cat", "sand"], ["cats", "and"]]
  {
    TableThree(s, d);
    TableFour(s, d);
    var e3 := Extend(Segs(s, d, 3), "sand");
    var e4 := Extend(Segs(s, d, 4), "and");
    Short(s, d, 7, 3);
    assert s[3..7] == "sand";
    assert SegsUpTo(s, d, 7, 4) == e3;
    assert s[4..7] == "and";
    assert SegsUpTo(s, d, 7, 5) == e3 + e4;
    NotWord(s[5..7], d);
    NotWord(s[6..7], d);
    assert SegsUpTo(s, d, 7, 6) == e3 + e4;
    assert SegsUpTo(s, d, 7, 7) == e3 + e4;
    ExtendOne(Segs(s, d, 3), "cat", "sand");
    ExtendOne(Segs(s, d, 4), "cats", "and");
  }

  /** The one split made of `u`, followed by `w`. */
  lemma ExtendOne(segs: seq<seq<string>>, u: string, w: string)
    requires segs == [[u]]
    ensures Extend(segs, w) == [[u, w]]
  {
    assert Extend(segs, w)[0] == [u, w];
  }

  /** The table entry for `cat`. */
  lemma TableThree(s: string, d: set<string>)
    requires Spelled(s) && d == {"cat", "cats", "and", "sand", "dog"}
    ensures Segs(s, d, 3) == [["cat"]]
  {
    var e := Extend(Segs(s, d, 0), "cat");
    assert s[0..3] == "cat";
    assert SegsUpTo(s, d, 3, 1) == e;
    NotWord(s[1..3], d);
    NotWord(s[2..3], d);
    assert SegsUpTo(s, d, 3, 2) == e;
    assert SegsUpTo(s, d, 3, 3) == e;
    assert e == [["cat"]] by {
      assert e[0] == [] + ["cat"] == ["cat"];
    }
  }

  /** The table entry for `cats`. */
  lemma TableFour(s: string, d: set<string>)
    requires Spelled(s) && d == {"cat", "cats", "and", "sand", "dog"}
    ensures Segs(s, d, 4) == [["cats"]]
  {
    var e := Extend(Segs(s, d, 0), "cats");
    assert s[0..4] == "cats";
    assert SegsUpTo(s, d, 4, 1) == e;
    NotWord(s[1..4], d);
    NotWord(s[2..4], d);
    NotWord(s[3..4], d);
    assert SegsUpTo(s, d, 4, 2) == e;
    assert SegsUpTo(s, d, 4, 3) == e;
    assert SegsUpTo(s, d, 4, 4) == e;
    assert e == [["cats"]] by {
      assert e[0] == [] + ["cats"] == ["cats"];
    }
  }
}
