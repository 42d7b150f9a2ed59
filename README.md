# Four exercises, modelled and proved in Dafny

The repository holds four standalone exercises. This project models each one
in Dafny and proves what it promises:

- **LRU cache** (`lru.py`). A store of fixed capacity. A doubly linked list of
  nodes runs from `start`, the most recently used, to `end`, the least
  recently used. A dict maps each key to its node.
  - `lru_spec.dfy` (module `LruSpec`) describes the cache as a sequence of
    entries, most recent first. It gives `get` and `put` as functions on that
    sequence.
  - `lru.dfy` (module `Lru`) is the cache itself: a class over heap nodes. Its
    `left`/`right` links, `start`, `end` and `cache` map are updated in place.
  - Ghost fields (`nodes`, `contents`, `Repr`) tie the linked list to the
    sequence. Every method is proved to change `contents` as `LruSpec` says.
  - A replay of any sequence of operations orders the keys by most recent use.
    A `put` that evicts removes exactly the least recently used key.
- **Trie** (`trie.py`). A tree of `edges` dicts. Each node holds the largest
  value inserted through it and an end mark.
  - `trie_spec.dfy` (module `TrieSpec`) views a trie as its set of end-marked
    words plus the value at every path. `insert`, `search`, `delete` and
    `search_all_values` are functions on that view.
  - `trie.dfy` (module `Trie`) holds the nodes in an arena: a sequence of node
    records in which edges name child slots. A ghost index maps every path to
    its slot. The methods `Insert`, `Search`, `SearchAllValues`, `DeleteUtil`
    and `Delete` are proved against the view.
- **Word break** (`word_break_ii.py`, the table-filling `wordbreak`).
  `dp[i]` holds every sentence the first `i` characters split into.
  - `word_break.dfy` (module `WordBreak`) proves the two nested loops against
    a recursive definition of all splits, in the order the table builds them.
  - Lemmas about that definition give soundness, completeness,
    duplicate-freedom and ordering.
- **Postfix evaluator** (`postfix_evaluator.py`). A stack machine over tokens.
  - `postfix.dfy` (module `Postfix`) proves the loop against a fold of
    single-token steps.
  - Lemmas relate the fold to stack depth, to well-formedness and to the
    value of an expression tree.

`wordbreak` slices and measures the module-level variable `s` rather than its
parameter `string` (word_break_ii.py:46, 52). Its only caller passes that same
`s`, so the model reads the parameter throughout.

## Model

| member | source | states |
|---|---|---|
| Lru.Node.constructor | lru.py:14-18 | a new node holds the key and value and has no neighbours |
| Lru.LRUCache.constructor | lru.py:26-29 | a new cache is valid and empty, with the given capacity |
| Lru.LRUCache.RemoveNode | lru.py:89-104 | unlinks the node at position `i`. The list becomes the old list without it, the node is no longer listed, and the links stay a well-formed list. `start`/`end` move on when the node was at either end. The map and the entries are untouched |
| Lru.LRUCache.AddAtTop | lru.py:73-87 | links a node at the front. It becomes `start`, and also `end` when the list was empty. The rest of the list is unchanged |
| Lru.LRUCache.MoveToTop | lru.py:42-62 | remove, then add at the front: the node moves to position 0 and the others keep their relative order |
| Lru.LRUCache.Get | lru.py:32-47 | returns `Lookup` of the key: its value on a hit, -1 on a miss. The entries become `AfterGet`: a hit moves to the front. A miss changes neither the list nor the map. The invariant is kept |
| Lru.LRUCache.Put | lru.py:49-71 | with capacity ≥ 1, the entries become `AfterPut` and the invariant is kept |
| Lru.LRUCache.Refresh | lru.py:58-62 | put of a cached key: the entries become `AfterPut`, so the key with its new value moves to the front. No node is allocated and the invariant is kept |
| Lru.LRUCache.Insert | lru.py:63-71 | put of a new key: evict when full, then admit at the front; the entries become `AfterPut` |
| Lru.LRUCache.Admit | lru.py:68-71 | a new node enters the list at the front and the map under its key |
| Lru.LRUCache.Evict | lru.py:65-67 | the `end` entry leaves the map and the list; the rest stays in order |
| Lru.LRUCache.CacheKeys | lru.py:42-71 | the map's keys are exactly the keys of the list's entries |
| Lru.LRUCache.Acyclic | lru.py:81-104 | the nodes between `start` and `end` are pairwise distinct |
| Lru.ScriptFour | lru.py:108-118 | on a capacity-4 cache the script's `get(10)` returns 16, and `get(1)`, `get(15)` return -1 |
| Lru.FillFour | lru.py:109-111 | three new keys each go in front of the earlier ones |
| Lru.UpdateFour | lru.py:112-113 | `put(10, 16)` moves key 10 to the front with 16, and `get(10)` reads 16 |
| Lru.OverflowFour | lru.py:114-116 | 12 fills the cache; then 18 evicts 1 and 13 evicts 15 |
| Lru.ProbeFour | lru.py:117-118 | both evicted keys miss |
| Lru.ScriptOne | lru.py:120-125 | the capacity-1 scenario gives 1, -1, 2 |
| Lru.ScriptTwo | lru.py:127-133 | the capacity-2 scenario gives 2, -1 |
| Lru.UpdateTwo | lru.py:128-130 | a second put of key 2 overwrites its value |
| Lru.EvictTwo | lru.py:131-133 | two new keys in a full capacity-2 cache push key 2 out |
| LruSpec.IndexOf | lru.py:42-43 | the position of the (first) entry with the key |
| LruSpec.Without | lru.py:44 | dropping a key's entries leaves the key set minus that key |
| LruSpec.KeySetSize | lru.py:65 | with distinct keys, the number of keys equals the number of entries (`len(self.cache)`) |
| LruSpec.GetMiss | lru.py:42-47 | a missing key gives -1 and leaves the entries unchanged |
| LruSpec.GetHit | lru.py:42-46 | a hit gives the stored value and moves that entry to the front; the others keep their order and the key set is unchanged |
| LruSpec.GetInv | lru.py:41-47 | `get` keeps keys distinct and the size within capacity |
| LruSpec.PutExisting | lru.py:58-62 | put of a cached key: that key, with the new value, in front of the others; same key set, same size |
| LruSpec.PutEvicts | lru.py:64-71 | put of a new key into a full cache: the last (least recently used) key is gone, the new one is in front, and the size is unchanged |
| LruSpec.PutFresh | lru.py:63-71 | put of a new key with room: the new entry goes in front of the old list |
| LruSpec.PutInv | lru.py:65-71 | with capacity ≥ 1, `put` keeps keys distinct and the size at most the capacity |
| LruSpec.PutThenGet | lru.py:32-71 | a `get` right after `put(k, v)` returns `v` |
| LruSpec.ReplayInv | lru.py:32-71 | after any sequence of operations the keys are distinct and the size is within capacity |
| LruSpec.RecencyOrder | lru.py:41-71 | after any sequence of operations the list order is the keys ordered by most recent use |
| LruSpec.RecencyStep | lru.py:41-71 | one more operation keeps the list in recency order |
| LruSpec.EvictsLeastRecentlyUsed | lru.py:65-68 | a put that evicts removes exactly the least recently used cached key and adds the new one |
| LruSpec.TraceFourFill | lru.py:108-111 | the entries after the first three puts of the capacity-4 script |
| LruSpec.TraceFourUpdate | lru.py:112-113 | `put(10, 16)` updates and moves key 10; `get(10)` is 16 |
| LruSpec.TraceFourEvict | lru.py:114-118 | the next three puts evict 1 and then 15, which then miss |
| LruSpec.TraceOne | lru.py:120-125 | the capacity-1 scenario at the level of entries |
| LruSpec.TraceTwo | lru.py:127-133 | the capacity-2 scenario at the level of entries |
| TrieSpec.EmptyCoherent | trie.py:20-21 | a new trie (the root only) is coherent |
| TrieSpec.InsertCoherent | trie.py:23-37 | insert keeps every node on a path to a word, values non-negative and the root's value 0 |
| TrieSpec.DeleteCoherent | trie.py:75-104 | delete keeps the trie coherent |
| TrieSpec.LookupMissing | trie.py:39-46 | `search` gives -1 exactly when the path is not there |
| TrieSpec.InsertFound | trie.py:23-37 | after `insert(k, v)`, `k` is a word. Every non-root node on its path holds at least `v` and at least its old value. `search(k)` does not miss, and for a non-empty `k` and `v > 0` it returns a number of at least `v` |
| TrieSpec.InsertElsewhere | trie.py:26-35 | nodes off the inserted path keep their values |
| TrieSpec.DeletePrunes | trie.py:90-96 | after `delete(w)` a path misses exactly when no remaining word runs through it |
| TrieSpec.InsertThenDelete | trie.py:23-104 | deleting a word just inserted restores the word set |
| TrieSpec.BuildWords | trie.py:121-122 | a trie built by insertions is coherent and holds exactly the inserted words |
| TrieSpec.BuildValues | trie.py:34-35 | each non-root node's value is the largest value inserted through it (0 if none is positive) |
| TrieSpec.SampleSteps | trie.py:108-122 | the script's four insertions, one after the other |
| TrieSpec.SampleBuilt | trie.py:108-122 | they leave the four words and 99 at `hacker` |
| TrieSpec.Scenario | trie.py:123-127 | `search('hacker')` is 99. After `delete('blob')`, `search('blob')` is -1 and `hacker` still gives 99 |
| TrieSpec.Deleted | trie.py:126-127 | in any coherent trie of the four words with 99 at `hacker`, after deleting `blob` the path `blob` misses and `hacker` still gives 99 |
| TrieSpec.Listings | trie.py:125-130 | the words under `hack`; after deleting `blob` and `hackerrank`, the two left under `hacker` |
| Trie.Find | trie.py:27-28 | `char in root.edges`: the position of the edge with that letter, or none when no edge carries it |
| Trie.FindAppend | trie.py:32 | adding an edge for a new letter keeps the letters distinct and finds the new edge |
| Trie.FindDrop | trie.py:95 | popping one edge keeps the letters distinct and every other lookup's target |
| Trie.KeyOf | trie.py:30-31 | the node for a non-empty path carries the path's last character; the root carries none |
| Trie.Absent | trie.py:41-45 | a path whose walk meets a missing edge is not in the trie |
| Trie.IndexPaths | trie.py:26-33 | the nodes of a valid arena are exactly the prefixes of its end-marked words |
| Trie.Coherence | trie.py:12-17 | the view of a valid arena is coherent |
| Trie.RootHolds | trie.py:96-104 | the root has edges or an end mark exactly when some word remains |
| Trie.Descend | trie.py:27-28 | following an existing edge advances the insertion walk |
| Trie.Extend | trie.py:29-33 | a new node for a missing letter advances the insertion walk |
| Trie.Raise | trie.py:34-35 | raising the current node to `v` keeps the walk's record of raised nodes |
| Trie.Finish | trie.py:37 | marking the last node ends an insertion whose view is `AfterInsert` |
| Trie.CollectWords | trie.py:48-55 | the depth-first listing below a node holds exactly the suffixes that complete end-marked words |
| Trie.CollectUnrepeated | trie.py:48-55 | that listing names no word twice, because the letters on a node's edges are distinct |
| Trie.ListsUnder | trie.py:57-73 | prefixing those suffixes with the query gives exactly the words under it, each once |
| Trie.ClearEnd | trie.py:79-83 | clearing `key`'s end mark starts the pruning |
| Trie.KeepAll | trie.py:92-93 | a child that still has children or an end mark stops the pruning |
| Trie.PopEdge | trie.py:95-96 | popping a dead child's edge continues the pruning one level up |
| Trie.DeleteView | trie.py:75-104 | a completed pruning leaves a valid arena whose view is `AfterDelete` |
| Trie.DeletedWords | trie.py:79-81 | the words left are the old ones but the deleted word |
| Trie.DeletedPaths | trie.py:90-96 | the paths left are exactly those of the words left |
| Trie.Trie.constructor | trie.py:12-21 | a new trie is valid and holds the root only |
| Trie.Trie.Insert | trie.py:23-37 | the view becomes `AfterInsert` of the old view, and the trie stays valid |
| Trie.Trie.Advance | trie.py:26-35 | one pass of the insertion loop: descend or add a child, then raise its value |
| Trie.Trie.Search | trie.py:39-46 | returns `Lookup`: -1 for a missing path, else the value if non-zero, else the node's character |
| Trie.Trie.SearchAllValues | trie.py:57-73 | an empty query gives the error value. Otherwise the listing holds exactly the words under the query, in depth-first order, with no word listed twice. A missing path gives `[]` |
| Trie.Trie.DeleteUtil | trie.py:75-96 | a missing path raises and changes nothing. Otherwise the subtree is pruned, and the result says whether the node still has children or an end mark |
| Trie.Trie.Delete | trie.py:99-104 | the empty word gives the error value and a missing path the raised error, both changing nothing. Otherwise the view becomes `AfterDelete`, and the result says whether any word remains |
| Trie.Script | trie.py:107-130 | the script's results: `search('hacker')` is 99, the listing under `hack` is the three `hacker…` words, `search('blob')` after its deletion is -1, and the listing under `hacker` after deleting `hackerrank` is `hackerearth` and `hackerahan`; neither listing repeats a word |
| Trie.Fill | trie.py:121-122 | the four insertions give the sample trie |
| Trie.Query | trie.py:123-125 | `search('hacker')` is 99 and `search_all_values('hack')` lists the three words under `hack`, each once |
| Trie.DropBlob | trie.py:126-127 | after `delete('blob')`, `search('blob')` is -1 |
| Trie.DropRank | trie.py:128-130 | after `delete('hackerrank')`, two words are listed under `hacker`, each once |
| WordBreak.WordBreak | word_break_ii.py:37-52 | the result is the sentences of all splits of the string into dictionary words, in the table's order |
| WordBreak.Column | word_break_ii.py:43-50 | one inner pass: the sentences whose last word starts at `j` are `dp[j]` with `string[j:i]` attached |
| WordBreak.AttachSentences | word_break_ii.py:48-50 | attaching a word to sentences is the same as extending their splits |
| WordBreak.SegsSound | word_break_ii.py:42-50 | every entry of `dp[i]` is a split of the first `i` characters into non-empty dictionary words |
| WordBreak.SegsComplete | word_break_ii.py:38-50 | every such split is in `dp[i]` |
| WordBreak.SegsNoDup | word_break_ii.py:38-50 | no split appears twice |
| WordBreak.SegsOrdered | word_break_ii.py:43-50 | splits are in ascending order of where their last word starts |
| WordBreak.SplittableIff | word_break_ii.py:43-50 | `dp[i]` is non-empty exactly when the first `i` characters can be split |
| WordBreak.JoinEmpty | word_break_ii.py:48-49 | a sentence is empty exactly when it has no words |
| WordBreak.SplitJoin | word_break_ii.py:48 | cutting a sentence at its spaces gives back its words |
| WordBreak.SentenceWords | word_break_ii.py:42-52 | each returned sentence's space-separated words are dictionary words whose concatenation is the input |
| WordBreak.SentencesExact | word_break_ii.py:38-52 | every split's sentence is returned, and no sentence twice |
| WordBreak.EmptyInput | word_break_ii.py:39-52 | an empty input gives `[""]` |
| WordBreak.NoSplitNoSentence | word_break_ii.py:42-52 | an input with no split gives `[]` |
| WordBreak.CatsAndDog | word_break_ii.py:56-60 | `cats and dog` and `cat sand dog` both split `catsanddog`, and the table's sentences for it are exactly `["cat sand dog", "cats and dog"]`, in that order |
| Postfix.Evaluate | postfix_evaluator.py:5-15 | returns `Eval` of the tokens: the top of the final stack, or the error the first failing token causes |
| Postfix.ParseOp | postfix_evaluator.py:14 | exactly the tokens `+`, `-`, `*` are operators |
| Postfix.DigitChar | postfix_evaluator.py:9 | the character for a digit value is a digit with that value |
| Postfix.Decimal | postfix_evaluator.py:14 | `str` of a natural number is a digit string |
| Postfix.DecimalRoundTrip | postfix_evaluator.py:9-14 | that digit string denotes the number again |
| Postfix.RunHeight | postfix_evaluator.py:8-14 | a successful run leaves the start height plus one per operand and minus one per operator |
| Postfix.RunOkIff | postfix_evaluator.py:8-14 | with admitted tokens, a run succeeds exactly when no prefix leaves the stack empty |
| Postfix.WellFormedEvaluates | postfix_evaluator.py:8-15 | a well-formed expression evaluates and ends with exactly one entry |
| Postfix.RunAppend | postfix_evaluator.py:8-14 | running two token lists in a row is running their concatenation |
| Postfix.PostfixPushesValue | postfix_evaluator.py:11-14 | an expression tree's postfix form pushes exactly its value, with the deeper operand on the left |
| Postfix.EvalToPostfix | postfix_evaluator.py:5-15 | the postfix form of an expression evaluates to its value |
| Postfix.ExampleFortyEight | postfix_evaluator.py:20-21 | `5 3 + 8 2 - *` evaluates to 48 |
| Postfix.ExtraEntriesIgnored | postfix_evaluator.py:15 | entries left below the top are ignored |
| Postfix.UnderflowExamples | postfix_evaluator.py:12-15 | an operator on a short stack and an empty input underflow |

## Left out

- The lock in lru.py:8, 30, 41 and 57. Each `get` and `put` is one sequential step.
- All `__main__` blocks, every `print`, and postfix's `main()`, which runs at import. Their scenarios become the script members above.
- The commented-out file reading in trie.py:111-120 (I/O).
- `Solution.helper` and the class-level `cache`/`visited` of word_break_ii.py:5-30. Their results depend on earlier calls.
- Python's `eval` beyond `+`, `-` and `*`. `/` yields floats, and any other token would run arbitrary code. The model reports such a token as unsupported once it has popped two entries. This includes the empty token that two spaces in a row produce: there `eval` reads the two operands' digits as one number.
- Postfix tokens: `isdigit` is modelled for the ASCII digits only. A token such as `08` is read as 8, whereas `eval` refuses a literal with a leading zero.
- Postfix operands: the source keeps each intermediate result as the decimal string `str` gives, possibly negative, and `eval` re-reads it inside the next expression (for instance `4--2`). The model keeps integers instead. It assumes that `eval` of such an expression computes the integer operation, which holds for `+`, `-` and `*` because unary minus binds tighter than they do; no lemma states this. `DecimalRoundTrip` covers only the non-negative literals that tokens spell. The source returns the final `str`, the model its integer.
- Lru.LRUCache.Put: requires capacity ≥ 1. With capacity 0 or less, the source dereferences `self.end` while it is `None` (lru.py:66).
- Lru.LRUCache.Put: the source's one method is split into `Refresh`, `Insert`, `Admit` and `Evict`. A node popped by an eviction stays in the ghost footprint `Repr`.
- Trie.Trie.Insert: values are integers, although `insert` is annotated `v: str`. They are compared with `<` against the integer 0.
- Trie nodes live in an arena (a sequence of records whose edges name child slots) rather than as separate heap objects. A pruned node is left as an unreachable slot rather than freed. Aliasing between nodes cannot arise in either form.
- Trie.Trie.DeleteUtil: the `if not root` branch (trie.py:76-77) is not modelled, because a slot is never missing.
- Trie.Trie.SearchAllValues: the generator's shared, mutated `return_val` list is not modelled. The listing is computed directly, in the same depth-first, insertion order of edges.
- Trie.Script: the exact order of the two listings is not stated, only their sets.
