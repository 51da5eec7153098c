# Word-frequency dictionaries

A model of the three dictionary backends of the `dictionary` package, in
Dafny. Each backend stores `(word, frequency)` records and offers build,
search, add, delete and autocomplete:

- **trie** (`dictionary/trie_dictionary.py`): a tree of `TrieNode`s whose
  `children` maps are keyed by character. Construction seeds the root with
  one non-terminal child `'c'`. `build_dictionary` walks down each word,
  reusing existing edges and creating missing ones, and marks the end node
  terminal with the frequency, so the last entry for a word wins. The other
  four operations answer constants.
- **linked list** (`dictionary/linkedlist_dictionary.py`): a singly linked
  list that always ends in a sentinel node without an entry. Building and
  adding prepend at `head`. Search visits every node, so the node nearest
  the tail (the earliest inserted entry) wins. Add prepends only when no
  node carries the word.
- **map** (`dictionary/array_dictionary.py`): one dictionary from word to
  frequency, absent until the first build. Build is last-write-wins. Search
  counts the stored words that contain the query as a substring. Add
  inserts only new words.

Files:

- `word_frequency.dfy` (module `WordFrequencies`): the record, and `Store`,
  the "write the entries in order, last one wins" reading shared by the trie
  and map builds, with its properties.
- `trie_dictionary.dfy` (module `TrieDict`): `TrieNode` and `TrieDictionary`
  as classes. Three ghost fields describe the trie:
  - `NodeAt`: the node at every path;
  - `Nodes`: the set of nodes;
  - `Words`: the stored words and their frequencies.
  `Valid()` ties these to the real `children`, `letter`, `is_last` and
  `frequency` fields.
- `linkedlist_dictionary.dfy` (module `LinkedListDict`): `ListNode` and
  `LinkedListDictionary` as classes. The ghost `Contents` is the entry
  sequence read from `head`, and `Spine` is the chain of nodes.
- `array_dictionary.dfy` (module `ArrayDict`): `ArrayDictionary` with an
  `Option<map<string, int>>` field.

The model follows what the code does, including where it falls short of
its own docstrings:

- The trie's `search`, `add_word_frequency`, `delete_word` and
  `autocomplete` promise a frequency, an insertion, a deletion and up to
  three completions (`dictionary/trie_dictionary.py:64-67`, `76-79`,
  `87-90`, `97-100`). They return `0`, `False`, `False` and `[]`.
- The map's `search` promises a frequency
  (`dictionary/array_dictionary.py:33-36`). It counts the stored words
  that contain the query as a substring (`39-44`).
- Trie `build_dictionary` keeps what the trie already holds, including the
  seeded `'c'` node.
- Linked-list `search` returns the frequency of the earliest-inserted
  entry when a word occurs more than once.
- Linked-list `delete_word` never unlinks a node. It steps two nodes per
  round. It raises on the sentinel's missing entry whenever the list holds
  an even number of entries. Otherwise it reports whether an entry at an
  even position from `head` carries the word.

## Model

| member | source | states |
|---|---|---|
| WordFrequencies.LastIndex | dictionary/array_dictionary.py:27-28 | every word of an entry list has a last entry carrying it, the one whose frequency a last-write-wins build keeps |
| WordFrequencies.StoreKeys | dictionary/array_dictionary.py:26-30 | writing the entries one by one into a map adds exactly the words of the entries to its keys |
| WordFrequencies.StoreLastWins | dictionary/array_dictionary.py:27-28 | after writing the entries in order, a word maps to the frequency of its last entry |
| WordFrequencies.StoreKeepsOthers | dictionary/trie_dictionary.py:42-59 | a word that no entry carries keeps its previous presence and value |
| WordFrequencies.StoreFacts | dictionary/trie_dictionary.py:42-59 | the key set, last-wins and unchanged-others facts for a whole build |
| TrieDict.TrieNode.constructor | dictionary/trie_dictionary.py:16-20 | a new node has the given letter, frequency and terminal flag (by default none, none and non-terminal) and no children |
| TrieDict.TrieNode.HasChild | dictionary/trie_dictionary.py:45-51 | the scan over the child keys, stopping at the first match, finds `ch` exactly when it is a key of `children` |
| TrieDict.TrieDictionary.constructor | dictionary/trie_dictionary.py:25-34 | the root is non-terminal, carries no letter or frequency, and has exactly one child, under `'c'`, which is non-terminal, childless and lettered `'c'`; no word is stored |
| TrieDict.TrieDictionary.BuildDictionary | dictionary/trie_dictionary.py:37-59 | the trie stays well formed; the root is kept and every existing path still leads to the same node; the new paths are exactly the prefixes of the input words; only terminal nodes carry a frequency; the stored words become the old ones overwritten by the entries in order, so every input word is stored with its last entry's frequency and every other stored word keeps its frequency |
| TrieDict.TrieDictionary.InsertWord | dictionary/trie_dictionary.py:43-59 | one round of the outer loop: adds exactly the prefixes of the word as paths, keeps every existing path, and stores the word with the entry's frequency (the root itself for the empty word) |
| TrieDict.TrieDictionary.Descend | dictionary/trie_dictionary.py:44-56 | one character step: the cursor moves to the node at path `p + [ch]`, reusing the existing child or creating one, and nothing else changes |
| TrieDict.TrieDictionary.AddChild | dictionary/trie_dictionary.py:52-56 | a child is created only under a missing key; it is a new, non-terminal, childless node lettered with its key and carrying no frequency, and it becomes the only new path |
| TrieDict.TrieDictionary.ChildAddedKeepsEdgesDown | dictionary/trie_dictionary.py:54-56 | after a child is hung under a missing key, every edge still leads one character further along a path |
| TrieDict.TrieDictionary.ChildAddedKeepsEdgesUp | dictionary/trie_dictionary.py:54-56 | after a child is hung under a missing key, every path is still an edge out of its parent, and every child's letter still equals its key |
| TrieDict.TrieDictionary.ChildAddedKeepsMarks | dictionary/trie_dictionary.py:54-56 | adding a non-terminal child without a frequency keeps the terminal nodes exactly the stored words, keeps every non-terminal node without a frequency, and keeps the trie a tree |
| TrieDict.TrieDictionary.MarkLast | dictionary/trie_dictionary.py:58-59 | the end node becomes terminal with the entry's frequency, overwriting an earlier one, and the stored words gain or update exactly that word |
| TrieDict.TrieDictionary.PathPrefix | dictionary/trie_dictionary.py:44-56 | every prefix of a path of the trie is a path, and the next character is a key of its children |
| TrieDict.TrieDictionary.WalkFollowsPaths | dictionary/trie_dictionary.py:44-56 | following the `children` maps from a node along a string ends at the node of the extended path, and fails exactly when that path does not exist |
| TrieDict.TrieDictionary.FindsStoredWords | dictionary/trie_dictionary.py:43-59 | walking a word from the root ends at a terminal node if and only if the word is stored; that node holds the stored frequency, and a non-terminal node reached along a prefix holds none |
| TrieDict.TrieDictionary.FindsInputWords | dictionary/trie_dictionary.py:42-59 | after a build, walking any input word from the root ends at a terminal node that holds the frequency of the word's last entry |
| TrieDict.TrieDictionary.Search | dictionary/trie_dictionary.py:63-72 | always 0, and the trie is not changed |
| TrieDict.TrieDictionary.AddWordFrequency | dictionary/trie_dictionary.py:75-84 | always false, and the trie is not changed |
| TrieDict.TrieDictionary.DeleteWord | dictionary/trie_dictionary.py:86-93 | always false, and the trie is not changed |
| TrieDict.TrieDictionary.Autocomplete | dictionary/trie_dictionary.py:96-102 | always the empty list, and the trie is not changed |
| LinkedListDict.ListNode.constructor | dictionary/linkedlist_dictionary.py:10-12 | a new node holds the given entry (none for the sentinel) and has no successor |
| LinkedListDict.LinkedListDictionary.constructor | dictionary/linkedlist_dictionary.py:24-25 | a new dictionary is a lone sentinel: one node, no entry, no successor |
| LinkedListDict.LinkedListDictionary.BuildDictionary | dictionary/linkedlist_dictionary.py:27-38 | the entries read from `head` become the input reversed followed by the previous entries, with no deduplication |
| LinkedListDict.LinkedListDictionary.Prepend | dictionary/linkedlist_dictionary.py:34-38 | a new node carrying the entry becomes `head` and links to the old `head`; the old chain is unchanged |
| LinkedListDict.LinkedListDictionary.Search | dictionary/linkedlist_dictionary.py:43-58 | the result is the frequency of the entry nearest the tail that carries the word, or 0; the sentinel is skipped and the list is not changed |
| LinkedListDict.ScanAbsent | dictionary/linkedlist_dictionary.py:52-58 | searching for a word that no entry carries gives 0 |
| LinkedListDict.ScanFindsLast | dictionary/linkedlist_dictionary.py:54-57 | with several entries for the word, the search gives the frequency of the one nearest the tail |
| LinkedListDict.BuildThenSearch | dictionary/linkedlist_dictionary.py:32-58 | after building into a list without the word, the search gives the frequency of the word's first input entry, not its last |
| LinkedListDict.LinkedListDictionary.AddWordFrequency | dictionary/linkedlist_dictionary.py:60-83 | true exactly when no entry carries the word; then the entry is prepended, otherwise the list is unchanged |
| LinkedListDict.AddThenSearch | dictionary/linkedlist_dictionary.py:55-57 | after a successful add, the search for the added word gives the added frequency |
| LinkedListDict.LinkedListDictionary.DeleteWord | dictionary/linkedlist_dictionary.py:85-115 | the routine as written: it never unlinks a node; it raises on the sentinel when the list holds an even number of entries, and otherwise reports whether an entry at an even position from `head` carries the word |
| LinkedListDict.BuildThenDelete | dictionary/linkedlist_dictionary.py:32-38 | on a dictionary built from the input alone, deletion raises for an even-length input and otherwise reports whether an entry at an even input position carries the word |
| LinkedListDict.EvenPositionsOfMirror | dictionary/linkedlist_dictionary.py:94-101 | for an odd number of entries, reversal maps the positions the deletion loop stops at onto the even input positions, in both directions |
| LinkedListDict.DeleteMissesMiddleEntry | dictionary/linkedlist_dictionary.py:94-101 | with three entries, deletion reports failure for the word of the middle entry although it is stored |
| LinkedListDict.LinkedListDictionary.Autocomplete | dictionary/linkedlist_dictionary.py:120-128 | always the empty list, and the list is not changed |
| ArrayDict.ArrayDictionary.constructor | dictionary/array_dictionary.py:16-18 | a new dictionary holds no map yet |
| ArrayDict.ArrayDictionary.BuildDictionary | dictionary/array_dictionary.py:20-30 | the previous map is replaced by one whose keys are exactly the input words, each mapped to the frequency of its last entry |
| ArrayDict.ArrayDictionary.Search | dictionary/array_dictionary.py:32-44 | the result is the number of stored words that contain the query as a contiguous substring, and the map is not changed |
| ArrayDict.CountBounds | dictionary/array_dictionary.py:39-44 | the search count lies between 0 and the number of stored words |
| ArrayDict.CountStoredWord | dictionary/array_dictionary.py:39-44 | searching for a stored word counts at least 1 |
| ArrayDict.CountEmptyQuery | dictionary/array_dictionary.py:39-44 | the empty query counts every stored word |
| ArrayDict.ArrayDictionary.AddWordFrequency | dictionary/array_dictionary.py:46-61 | true exactly when the word is not a key; then the word is mapped to the given frequency and every other entry is unchanged, otherwise the map is unchanged |
| ArrayDict.ArrayDictionary.DeleteWord | dictionary/array_dictionary.py:63-72 | always false, and the map is not changed |
| ArrayDict.ArrayDictionary.Autocomplete | dictionary/array_dictionary.py:75-81 | always the empty list, and the map is not changed |

## Left out

- `BaseDictionary` and `WordFrequency` (`dictionary/base_dictionary.py`, `dictionary/word_frequency.py`) are not part of this model. `WordFrequency` is modelled as a two-field record, and the base class as the set of operations each backend offers.
- The `print` calls in linked-list `delete_word` are output only and are left out. So are commented-out code and the unused `string` and `bisect` imports.
- Python dictionaries iterate in insertion order. The key scans in `TrieDict.TrieNode.HasChild`, `ArrayDict.ArrayDictionary.Search` and `ArrayDict.ArrayDictionary.AddWordFrequency` take the keys in an unspecified order instead. None of their results depends on the order.
- ArrayDict.ArrayDictionary.Search: requires a built dictionary. Before the first build the map field is `None` and the source raises an attribute error. That crash is not modelled.
- ArrayDict.ArrayDictionary.AddWordFrequency: requires a built dictionary, for the same reason.
- LinkedListDict.LinkedListDictionary.BuildDictionary: states the new entry sequence, not which nodes carry it. Its frame already keeps every old node's fields unchanged. `Prepend` states node by node that the new node is fresh and that the old chain follows it.
- Object identity and aliasing beyond what the trie and list invariants state are not modelled. The trie is tracked through its ghost path map rather than a per-node footprint.
- Python integers are unbounded and so are Dafny's `int`, so there is no overflow to model.
