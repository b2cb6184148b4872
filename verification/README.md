# Word-frequency dictionaries in Dafny

This project models three interchangeable word→frequency dictionaries. Each one stores
(word, frequency) pairs. Each one offers the same five operations: `build_dictionary`,
`search`, `add_word_frequency`, `delete_word`, and `autocomplete`, which returns at most
three of the most frequent words starting with a prefix.

- `dictionary/list_dictionary.py` is a Python list of `[word, frequency]` pairs, searched
  linearly.
- `dictionary/hashtable_dictionary.py` is a Python dict from word to frequency.
- `dictionary/ternarysearchtree_dictionary.py` is a ternary search tree of letter nodes.

Each backend is a class whose fields its methods update in place. Each method is proved
against a specification function on values, and the lemmas beside it state what that
function guarantees.

| file | module | contents |
|---|---|---|
| `words.dfy` | `Words` | the `WordFrequency` record and Python's `str.startswith` and `str.strip()` |
| | | first-match search (`FindWord`, `Lookup`), removal, prefix filtering |
| `ranking.dfy` | `Ranking` | Python's stable `sorted` on the frequency, `reversed` and `[:3]` |
| | | stability and top-k lemmas |
| `list_dictionary.dfy` | `ListDictionaries` | the list backend |
| `hashtable_dictionary.dfy` | `HashTableDictionaries` | the dict as a sequence of records with distinct words, in insertion order |
| | | `update`, build, delete, autocomplete |
| `ternary_search_tree.dfy` | `TernarySearchTrees` | the tree as an arena of nodes |
| | | the search and insertion walks as functions, their lemmas, and the class |

## Representation

**Records.** List pairs and dict items both hold a word and its frequency. Both are
modelled by the one record `WordFrequency`. The last loops of the two `autocomplete`
methods copy pairs into `WordFrequency` objects, so they are identity copies here.

**The dict.** It is a sequence of records with pairwise distinct words. The order of the
sequence is the dict's insertion order. `update` replaces the frequency in place for an
existing key, and appends a new key.

**The tree.** It is an arena: a sequence `nodes` plus the index of the root. A link
(`left`, `middle`, `right`) is the index of the node it points to. A node is always
appended before it is linked, so every link points to a later index, and every walk
terminates.

**The tree's ghost field.** `bounds`, a `Bounds` record, says which nodes form the root's
sibling chain and gives the open interval of letters each chain node must lie in. With it
the class invariant `Valid()` states that this chain is a binary search tree.

## Behaviour of the code that differs from its doc-comments

The model follows the code. Where the code does something other than what its
doc-comments promise, a lemma shows it.

- **Ternary tree: one-letter words are never stored.** The code that marks the end of a word
  (ternarysearchtree_dictionary.py:95-97, 236-238) runs only for characters after the
  first. `InsertChangesOneMark` proves that inserting a one-letter word changes no node's
  frequency or word-end flag. `OneLetterWordNotStored` proves that, inserted into an empty
  tree, such a word is then not found: `search` returns 0. In a larger tree the word's
  node may already carry a frequency that another word's insertion put there, and
  `search` then returns that frequency.
- **Ternary tree: insert and search compare differently.** After the first character,
  insertion goes sideways on `char <= letter` (line 215). Search goes sideways only on
  `<` and `>` (lines 149, 156). So a character equal to the current node's letter, but not
  to the letter of its `middle` child, matches no branch of `search`, and its loop never
  ends. `SearchHangsAfterInsert` shows this for searching "aa" after inserting "ab".
- **Ternary tree: a later word can overwrite an earlier word's frequency.** When the
  sideways slot for a character is held by another letter (lines 223-224, 233-234), the
  walk stays at the current node. For the last character, the current node is the node of
  the previous character, and that node gets marked. `LaterWordOverwritesEarlier` shows
  this: after building from ("ab", 1), ("abx", 2), ("aby", 3), ("abz", 4), `search("ab")`
  returns 4.
- **Ternary tree: `search` reads the frequency without checking `end_word`.** Line 164
  returns the frequency of the node where the walk ends, whether or not a word ends there.
  The empty word returns the root's frequency (`SearchResult`). In a tree built by
  `build_dictionary`, only word-end nodes ever get a non-zero frequency
  (`SearchNonZeroOnlyAtWordEnd`). So a walk that stops at a node never marked returns 0,
  but a walk that stops at a node marked by another word's insertion returns that word's
  frequency (`LaterWordOverwritesEarlier`).
- **Ternary tree: the debug searches decide whether `build_dictionary` returns.** After
  inserting the pairs, `build_dictionary` searches eight hard-coded words (lines 112-115).
  With no non-empty word there is no root, and the first search fails on it
  (`DebugSearchesFailWithoutWords`). After building from ("apt", 1), the search for
  "apple" never ends (`DebugSearchHangsAfterApt`). After building from ("cute", 1), all
  eight searches return (`DebugSearchesReturnAfterCute`).
- **List: `add_word_frequency` looks only at the first pair.** Its loop returns in its first
  iteration (list_dictionary.py:47-53). It therefore appends a duplicate of any word that is
  not first. On an empty list it appends nothing and returns `None`, which is read here as
  false.
- **Dict: `add_word_frequency` looks only at the first key.** The same applies
  (hashtable_dictionary.py:44-51): on an empty dict it returns False. For a word that is a
  key but not the first key, `update` overwrites that key's frequency and the call
  returns True.
- **Dict: ties come out in reverse insertion order.** `autocomplete` sorts ascending
  (stable) and then reverses (hashtable_dictionary.py:78-80). The list keeps ties in list
  order, because it uses a stable descending sort (list_dictionary.py:84).

## Model

| member | source | states |
|---|---|---|
| Words.StartsWith | dictionary/list_dictionary.py:81 | `w.startswith(p)` holds exactly when p is no longer than w and agrees with w's first \|p\| characters. |
| Words.TrimStart | dictionary/list_dictionary.py:33 | The result is a suffix of the input. Every character dropped is whitespace, and the result does not start with whitespace. |
| Words.TrimEnd | dictionary/list_dictionary.py:33 | The result is a prefix of the input. Every character dropped is whitespace, and the result does not end with whitespace. |
| Words.Strip | dictionary/list_dictionary.py:33 | `word.strip()` is a contiguous slice of the input, and every character outside the slice is whitespace. It has no whitespace at either end. It equals the input when the input holds no whitespace. |
| Words.FindWord | dictionary/list_dictionary.py:32-34 | A returned index holds the word, and no earlier record does. None means no record holds the word. |
| Words.Lookup | dictionary/list_dictionary.py:32-36 | A linear search returns the frequency of the first record holding the word, and 0 when no record holds it. |
| Words.RemoveAt | dictionary/list_dictionary.py:66 | Removal leaves one record fewer. Records before the removed one stay at their positions, and later ones move up by one. The result plus the removed record is the original multiset. |
| Words.MatchesPrefix | dictionary/list_dictionary.py:80-82 | Each record occurs in the result as often as in the input if its word starts with the prefix, and otherwise not at all. |
| Words.MatchesPrefixConcat | dictionary/list_dictionary.py:80-82 | Filtering two joined sequences joins the filtered parts, so the kept records stay in input order. |
| Words.LookupAfterAppend | dictionary/list_dictionary.py:51-52 | After appending a pair, search for its word still finds the earlier entry if there was one, and otherwise the new frequency. Every other word's search is unchanged. |
| Words.MatchesPrefixMembers | dictionary/list_dictionary.py:80-82 | Every record the prefix filter keeps starts with the prefix and comes from the input. |
| Words.FindWordConcat | dictionary/list_dictionary.py:32-34 | First-match search over two joined sequences looks in the second only when the first has no match, and then offsets the index. |
| Words.LookupAfterRemoveFirst | dictionary/list_dictionary.py:64-67 | After removing the first entry for a word, search for that word finds the next entry for it. Every other word's search is unchanged. |
| Ranking.InsertByKeySorted | dictionary/list_dictionary.py:84 | Inserting into a sorted sequence keeps it sorted and adds exactly the inserted record. |
| Ranking.InsertByKeyIsStable | dictionary/list_dictionary.py:84 | An inserted record goes ahead of every record of its own frequency, and the order of those records is kept. |
| Ranking.SortByFrequency | dictionary/list_dictionary.py:84 | `sorted` by frequency (ascending, or with `reverse=True`) returns a sorted permutation of its input. |
| Ranking.SortIsStable | dictionary/list_dictionary.py:84 | The sort is stable: records of equal frequency keep their relative order. |
| Ranking.Reverse | dictionary/hashtable_dictionary.py:80 | `reversed`: position i holds the input's element at position n-1-i. |
| Ranking.ReverseOfAscending | dictionary/hashtable_dictionary.py:78-80 | Reversing an ascending sort gives non-increasing frequencies. |
| Ranking.WithFrequencyReverse | dictionary/hashtable_dictionary.py:80 | Reversing reverses every group of equal frequency. |
| Ranking.Take | dictionary/list_dictionary.py:85 | `s[:n]` is a prefix of s of length min(n, \|s\|). |
| Ranking.TakeOfDescending | dictionary/list_dictionary.py:85 | Cutting a non-increasing sequence keeps a sub-multiset in non-increasing order, and no record left out has a higher frequency than any record kept. |
| Ranking.WithFrequencyOfPrefix | dictionary/list_dictionary.py:85 | Cutting a sequence keeps a prefix of each group of equal frequency. |
| ListDictionaries.Completions | dictionary/list_dictionary.py:78-85 | The prefix filter, the stable descending sort and the cut to three give min(3, number of matches) records. |
| ListDictionaries.CompletionsAreTopThree | dictionary/list_dictionary.py:78-91 | The result is min(3, number of matches) records of the list, each starting with the prefix. They come in non-increasing frequency. No left-out match has a higher frequency. Ties keep list order. |
| ListDictionaries.TiesKept | dictionary/list_dictionary.py:84-85 | The records of one frequency that autocomplete returns are a prefix of that frequency's records in list order. |
| ListDictionaries.ListDictionary.BuildDictionary | dictionary/list_dictionary.py:20-23 | The list becomes exactly the input pairs, in input order, duplicates included. |
| ListDictionaries.ListDictionary.Search | dictionary/list_dictionary.py:32-36 | Returns the frequency of the first pair whose word is `word.strip()`, else 0. The list is not modified. |
| ListDictionaries.ListDictionary.AddWordFrequency | dictionary/list_dictionary.py:47-53 | Returns true and appends the pair exactly when the list is non-empty and its first word differs from the given word. Otherwise nothing changes. |
| ListDictionaries.ListDictionary.DeleteWord | dictionary/list_dictionary.py:64-69 | Returns true exactly when some pair holds `word.strip()`, and then removes the first such pair, the others keeping their order. Otherwise nothing changes. |
| ListDictionaries.ListDictionary.Autocomplete | dictionary/list_dictionary.py:78-91 | Returns `Completions` of the list; `CompletionsAreTopThree` states its properties. The list is not modified. |
| HashTableDictionaries.Update | dictionary/hashtable_dictionary.py:23 | `update({w: f})` keeps keys distinct and maps w to f. Other keys and their positions are unchanged. An existing key keeps its place, and only a new key lengthens the dict. |
| HashTableDictionaries.Built | dictionary/hashtable_dictionary.py:19-23 | Building from pairs gives a dict without duplicate keys. |
| HashTableDictionaries.BuiltKeepsLastFrequency | dictionary/hashtable_dictionary.py:19-23 | After build, the keys are exactly the input words. Each key maps to the frequency of that word's last occurrence in the input. |
| HashTableDictionaries.BuiltAppendSame | dictionary/hashtable_dictionary.py:22-23 | After `update` with one more pair, that pair's word is a key and maps to its frequency. |
| HashTableDictionaries.BuiltAppendOther | dictionary/hashtable_dictionary.py:22-23 | `update` with one more pair leaves every other word's key position and frequency unchanged. |
| HashTableDictionaries.BuiltAppendKnown | dictionary/hashtable_dictionary.py:22-23 | `update` with a word that is already a key keeps every key in its place. |
| HashTableDictionaries.BuiltAppendNew | dictionary/hashtable_dictionary.py:22-23 | `update` with a new word appends it, with its frequency, after the existing keys. |
| HashTableDictionaries.BuiltKeyOrder | dictionary/hashtable_dictionary.py:19-23 | After build, the keys are in the order of their first occurrence in the input. |
| HashTableDictionaries.DeleteRemovesOnlyThatKey | dictionary/hashtable_dictionary.py:59-64 | `del` of a key keeps the other keys distinct and removes that key. Every other key's frequency is unchanged. |
| HashTableDictionaries.Completions | dictionary/hashtable_dictionary.py:72-80 | The prefix filter, the ascending sort, the reversal and the cut to three give min(3, number of matches) entries. |
| HashTableDictionaries.CompletionsAreTopThree | dictionary/hashtable_dictionary.py:72-84 | The result is min(3, number of matches) entries of the dict, each starting with the prefix. They come in non-increasing frequency. No left-out match has a higher frequency. Ties come in reverse dict order. |
| HashTableDictionaries.AscendingReversed | dictionary/hashtable_dictionary.py:78-80 | Sorting ascending and then reversing gives a permutation of the matches in non-increasing frequency. |
| HashTableDictionaries.TiesReversed | dictionary/hashtable_dictionary.py:78-80 | The entries of one frequency that autocomplete returns are a prefix of that frequency's entries in reverse dict order. |
| HashTableDictionaries.HashTableDictionary.BuildDictionary | dictionary/hashtable_dictionary.py:19-23 | The dict becomes `Built` of the input pairs. |
| HashTableDictionaries.HashTableDictionary.Search | dictionary/hashtable_dictionary.py:33-36 | Returns the stored frequency when the word is a key, else 0. The dict is not modified. |
| HashTableDictionaries.HashTableDictionary.AddWordFrequency | dictionary/hashtable_dictionary.py:44-51 | Returns true exactly when the dict is non-empty and its first key differs from the word; it then `update`s the pair, overwriting a later existing key. Otherwise nothing changes. |
| HashTableDictionaries.HashTableDictionary.DeleteWord | dictionary/hashtable_dictionary.py:59-64 | Returns true exactly when the word is a key, and then removes that entry. Otherwise nothing changes. |
| HashTableDictionaries.HashTableDictionary.Autocomplete | dictionary/hashtable_dictionary.py:72-84 | Returns `Completions` of the dict; `CompletionsAreTopThree` states its properties. The dict is not modified. |
| TernarySearchTrees.ChainFind | dictionary/ternarysearchtree_dictionary.py:131-143 | Defines the first-character search walk over the root's sibling chain. Its contract: a node it returns holds the character. `ChainFindComplete` gives the converse. |
| TernarySearchTrees.ChainFindComplete | dictionary/ternarysearchtree_dictionary.py:131-143 | In an ordered tree, the first-character walk for the letter of any node reachable from the root by `left` and `right` links finds that node. |
| TernarySearchTrees.ChainFindFrom | dictionary/ternarysearchtree_dictionary.py:131-143 | The same, from any chain node: the walk turns `left` or `right` exactly where the wanted node lies. |
| TernarySearchTrees.SideReachableWithin | dictionary/ternarysearchtree_dictionary.py:46-63 | Every node reachable sideways from a chain node is on the chain, and its letter lies in that node's interval. |
| TernarySearchTrees.MiddleStep | dictionary/ternarysearchtree_dictionary.py:144-162 | Defines one later-character search step: Miss for a missing link or another letter, Hang for the case no branch handles. Its contract: a step that reaches a node reaches one holding the character. |
| TernarySearchTrees.WalkFrom | dictionary/ternarysearchtree_dictionary.py:144-162 | A walk that consumes at least one character and ends at a node ends at a node holding the word's last character. |
| TernarySearchTrees.Walk | dictionary/ternarysearchtree_dictionary.py:125-162 | The walk for the empty word ends at the root. The walk for any other word, when it ends at a node, ends at one holding the word's last character. |
| TernarySearchTrees.SearchResult | dictionary/ternarysearchtree_dictionary.py:119-164 | `search` of the empty word returns the root's frequency. A non-zero result for any other word comes from a node the walk reached, holding the word's last character. |
| TernarySearchTrees.SearchNonZeroOnlyAtWordEnd | dictionary/ternarysearchtree_dictionary.py:164 | In a built tree, a non-zero `search` result always comes from a node marked as a word end. |
| TernarySearchTrees.InsertKeepsFrequencyAtWordEnds | dictionary/ternarysearchtree_dictionary.py:176-238 | An insertion keeps every node that is not a word end at frequency 0. |
| TernarySearchTrees.BuildFromKeepsFrequencyAtWordEnds | dictionary/ternarysearchtree_dictionary.py:34-97 | So does building from a sequence of pairs. |
| TernarySearchTrees.Attach | dictionary/ternarysearchtree_dictionary.py:49-51 | Creating a node appends one unmarked node with the letter and sets one empty link to it. Nothing else changes. |
| TernarySearchTrees.Mark | dictionary/ternarysearchtree_dictionary.py:236-238 | Marking sets the frequency and word-end flag of one node. That node keeps its letter and its three links, and every other node is unchanged. |
| TernarySearchTrees.ChainInsert | dictionary/ternarysearchtree_dictionary.py:186-204 | The first-character insertion walk adds at most one node and changes no letter, link or mark. It stops at a node holding the character. |
| TernarySearchTrees.InsertFirst | dictionary/ternarysearchtree_dictionary.py:181-204 | Creates a root when there is none, then walks the chain. Adds at most one node and changes no existing letter, link or mark. |
| TernarySearchTrees.InsertStep | dictionary/ternarysearchtree_dictionary.py:206-234 | A later-character insertion step adds at most one node, changes no existing letter, link or mark, and keeps the root. |
| TernarySearchTrees.InsertFrom | dictionary/ternarysearchtree_dictionary.py:205-238 | Inserting the later characters adds at most one node per character. The only node whose marks change is the node the walk ends at, and it receives the word's frequency. |
| TernarySearchTrees.Insert | dictionary/ternarysearchtree_dictionary.py:176-238 | An insertion adds at most `len(word)` nodes, never changes a letter, never removes or redirects a link, and keeps the root. |
| TernarySearchTrees.InsertChangesOneMark | dictionary/ternarysearchtree_dictionary.py:205-238 | A word of two or more characters changes the frequency and word-end flag of exactly one node, setting them to the given frequency and true. A one-letter word changes no mark. |
| TernarySearchTrees.ChainFindStable | dictionary/ternarysearchtree_dictionary.py:131-143 | Growing a tree does not change where a successful first-character search ends. |
| TernarySearchTrees.MiddleStepStable | dictionary/ternarysearchtree_dictionary.py:144-162 | Growing a tree does not change a successful later-character search step. |
| TernarySearchTrees.ChainInsertFound | dictionary/ternarysearchtree_dictionary.py:186-204 | After the first-character insertion walk, the first-character search walk finds the node it stopped at. |
| TernarySearchTrees.PlainStepFound | dictionary/ternarysearchtree_dictionary.py:206-234 | After an insertion step that meets no occupied slot and no letter equal to the current node's, the search step goes where the insertion step went. |
| TernarySearchTrees.InsertFromFound | dictionary/ternarysearchtree_dictionary.py:145-164 | After inserting the later characters along such steps, the search walk from the same node ends at the marked node, which holds the frequency. |
| TernarySearchTrees.InsertThenSearch | dictionary/ternarysearchtree_dictionary.py:176-238 | Round trip: after inserting a word of two or more characters whose steps are all plain, `search` terminates and returns the inserted frequency. |
| TernarySearchTrees.BuildFrom | dictionary/ternarysearchtree_dictionary.py:34-97 | Inserting the pairs in order keeps the tree well formed. |
| TernarySearchTrees.BuildFromRoot | dictionary/ternarysearchtree_dictionary.py:34-45 | The built tree has a root exactly when the start tree has one or some pair has a non-empty word. |
| TernarySearchTrees.Build | dictionary/ternarysearchtree_dictionary.py:26-97 | `build_dictionary` leaves a well-formed tree, with a root exactly when some pair has a non-empty word. |
| TernarySearchTrees.BuildFromAppend | dictionary/ternarysearchtree_dictionary.py:34-97 | Building from one more pair is one more insertion, with no duplicate check. |
| TernarySearchTrees.BuildStoresLastPair | dictionary/ternarysearchtree_dictionary.py:32-97 | After build, `search` for the last pair's word returns that pair's frequency, whatever earlier pairs held, provided its steps are plain. |
| TernarySearchTrees.OneLetterWordNotStored | dictionary/ternarysearchtree_dictionary.py:95-97 | A one-letter word inserted into an empty tree is not found: `search` returns 0. |
| TernarySearchTrees.SearchHangsAfterInsert | dictionary/ternarysearchtree_dictionary.py:144-162 | After inserting "ab", searching "aa" reaches the case that no branch of `search` handles. |
| TernarySearchTrees.LaterWordOverwritesEarlier | dictionary/ternarysearchtree_dictionary.py:223-238 | Building from ("ab", 1), ("abx", 2), ("aby", 3), ("abz", 4) makes `search("ab")` return 4. |
| TernarySearchTrees.DebugSearchesFailWithoutWords | dictionary/ternarysearchtree_dictionary.py:112-132 | When no pair has a non-empty word, the tree has no root, so the debug searches cannot return. |
| TernarySearchTrees.DebugSearchHangsAfterApt | dictionary/ternarysearchtree_dictionary.py:112-162 | After building from ("apt", 1), the debug search for "apple" reaches the case no branch of `search` handles. |
| TernarySearchTrees.DebugSearchesReturnAfterCute | dictionary/ternarysearchtree_dictionary.py:112-115 | After building from ("cute", 1), every debug search returns. |
| TernarySearchTrees.ChainIsSearchTree | dictionary/ternarysearchtree_dictionary.py:46-63 | In an ordered tree the root's sibling chain is a binary search tree. A chain node's letter lies in its interval. A left child has a smaller letter and its interval ends at the parent's letter; a right child has a larger letter and its interval starts there. |
| TernarySearchTrees.AttachKeepsOrder | dictionary/ternarysearchtree_dictionary.py:49-59 | Hanging a new node on an empty link keeps the chain ordered, when a node joining the chain lies inside its parent's interval on the proper side of the parent's letter. |
| TernarySearchTrees.NewRootIsOrdered | dictionary/ternarysearchtree_dictionary.py:182-184 | Creating the root of an empty tree gives an ordered one-node chain. |
| TernarySearchTrees.MarkKeepsOrder | dictionary/ternarysearchtree_dictionary.py:236-238 | Setting a frequency and word-end flag does not disturb the chain order. |
| TernarySearchTrees.TernarySearchTreeDictionary.AttachNode | dictionary/ternarysearchtree_dictionary.py:49-59 | Hangs a new node on an empty link, returns its index, and keeps the chain ordered. |
| TernarySearchTrees.TernarySearchTreeDictionary.MakeRoot | dictionary/ternarysearchtree_dictionary.py:182-184 | On an empty tree, creates the root node with the first character, as `InsertFirst` does, and keeps the chain ordered. |
| TernarySearchTrees.TernarySearchTreeDictionary.ChainStep | dictionary/ternarysearchtree_dictionary.py:188-204 | One iteration of the first-character loop. Either it stops where `ChainInsert` stops, or it changes nothing and moves down the chain to a later node from which `ChainInsert` ends at the same place. The letter stays inside the cursor's interval. |
| TernarySearchTrees.TernarySearchTreeDictionary.StartWord | dictionary/ternarysearchtree_dictionary.py:181-204 | The first-character loop leaves the tree and cursor that `InsertFirst` gives, and keeps the chain ordered. |
| TernarySearchTrees.TernarySearchTreeDictionary.StepWord | dictionary/ternarysearchtree_dictionary.py:206-234 | One later character leaves the tree and cursor that `InsertStep` gives. |
| TernarySearchTrees.TernarySearchTreeDictionary.MarkEnd | dictionary/ternarysearchtree_dictionary.py:236-238 | Leaves the tree that `Mark` gives. |
| TernarySearchTrees.TernarySearchTreeDictionary.InsertWord | dictionary/ternarysearchtree_dictionary.py:176-238 | The insertion loop leaves `Insert` of the old tree and keeps the chain ordered. |
| TernarySearchTrees.TernarySearchTreeDictionary.BuildDictionary | dictionary/ternarysearchtree_dictionary.py:26-97 | Starts from an empty tree and leaves `Build` of the input pairs. |
| TernarySearchTrees.TernarySearchTreeDictionary.Search | dictionary/ternarysearchtree_dictionary.py:119-164 | Returns `SearchResult`: the frequency of the node where the search walk ends, or 0 when a needed link is missing or the sideways node has another letter. The tree is not modified. |
| TernarySearchTrees.TernarySearchTreeDictionary.FindStart | dictionary/ternarysearchtree_dictionary.py:131-143 | The first-character loop of `search` ends where `ChainFind` ends, or returns None when a needed link is missing. |
| TernarySearchTrees.TernarySearchTreeDictionary.FindRest | dictionary/ternarysearchtree_dictionary.py:144-162 | The later-character loop of `search` returns the node where the walk ends, or None when the walk misses. |
| TernarySearchTrees.TernarySearchTreeDictionary.AddWordFrequency | dictionary/ternarysearchtree_dictionary.py:167-241 | Returns true and inserts exactly when `search` returns 0 for the word. Otherwise it returns false and leaves the tree untouched. |
| TernarySearchTrees.TernarySearchTreeDictionary.DeleteWord | dictionary/ternarysearchtree_dictionary.py:243-253 | Always returns false and changes nothing. |
| TernarySearchTrees.TernarySearchTreeDictionary.Autocomplete | dictionary/ternarysearchtree_dictionary.py:255-263 | Always returns the empty list. |

## Left out

- **TernarySearchTreeDictionary.BuildDictionary: the debug searches.** After the insertions,
  the source searches eight hard-coded words and prints the results
  (ternarysearchtree_dictionary.py:112-115). The method models only the insertions and
  always returns. The source instead fails on the missing root when no pair has a
  non-empty word, for example on an empty input (line 132). It never returns when a
  debug search hangs, for example after ("apt", 1), where "apple" hangs. The predicate
  `DebugSearchesReturn` states when the source returns, and the three `Debug...` lemmas
  show each case. The printed text and the commented-out dump of nodes (lines 98-110) are
  not modelled.
- **The tree's unused imports** (ternarysearchtree_dictionary.py:1-8). They have no effect
  on the dictionary.
- **`Node`, `WordFrequency` and `BaseDictionary`.** dictionary/node.py,
  dictionary/word_frequency.py and dictionary/base_dictionary.py are not part of this
  model. `Node` and `WordFrequency` are records with the fields the backends use. A new
  node has frequency 0 and is not a word end.
- **`TernarySearchTreeDictionary.Search` on an empty tree.** The source dereferences the
  missing root. The model requires a root (`root.Some?`) instead.
- **`TernarySearchTreeDictionary.AddWordFrequency` on an empty tree.** It calls `search`
  first and fails the same way, so it carries the same precondition. As a result, only
  `build_dictionary` creates the root.
- **`TernarySearchTreeDictionary.Search` walks that never end.** A later character equal to
  the current node's letter but not to its `middle` child's letter is excluded by the
  precondition `Walk(...) != Hang`; termination is not modelled.
  `TernarySearchTreeDictionary.AddWordFrequency` carries the same precondition.
  `SearchHangsAfterInsert` shows that such walks exist.
- **InsertThenSearch.** This round trip is stated only for insertions whose steps are all
  plain (`PlainInsert`). Outside them, `LaterWordOverwritesEarlier` and
  `OneLetterWordNotStored` show that the inserted frequency need not be found.
- **BuildStoresLastPair.** This covers the last pair of the input. It does not cover an
  earlier word followed by other pairs, because a later insertion can overwrite an
  earlier word's frequency (`LaterWordOverwritesEarlier`).
- **`delete_word` and `autocomplete` of the tree.** They have no code beyond their
  constant results, so they are modelled as those constants.
- **Heap objects, aliasing and `None` links.** Tree nodes are arena entries; links are
  indices. The root chain's order is a ghost invariant of the class, not a property of
  separate node objects.
- **Character comparison.** Letters compare by code point, as Python's comparison of
  one-character strings does.
- **Integer width.** Frequencies are unbounded integers, as Python's are.
