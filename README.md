# A verified model of a character-keyed trie

This project models a small Python trie library in Dafny and proves properties of
the model. The library has three parts:

- `trie.py`: the `TrieNode`/`Trie` prefix tree. Each node holds an optional value and
  a dictionary from characters to children. The trie keeps a running `size`.
  Operations: `put`, `get`, `delete` (pruning nodes that become useless), `is_empty`,
  `longest_prefix_of`, `keys_with_prefix` and `keys` (depth-first, in the order
  children were created).
- `task_1.py`: `Homework`, with `count_words_with_suffix` and `has_prefix`.
- `task_2.py`: `LongestCommonWord.find_longest_common_word`, which inserts a list of
  strings and walks down from the root while the path does not branch.

How the model is built:

- A node is a value: `TrieNodes.Node(value: Option<V>, children: seq<(char, Node<V>)>)`.
  The children are an association list in insertion order, which is the order Python
  dictionaries iterate in.
- `Tries.Trie` is a class with the fields `root` and `size`. Its methods change them
  the way the Python methods do.
- `put` and `delete` are specified by pure path rebuilds, `TrieInsert.Insert` and
  `TrieDelete.Remove`. `Remove` mirrors the nested `_delete` step by step and returns
  its prune signal.
- `_collect` is a recursive method, `Tries.Collect`. It is specified by the function
  `TrieKeys.Keys`, which lists the keys in the same depth-first order.
- The queries are loops, each proved against the lookup function `TrieNodes.Find` or
  the path function `TrieNodes.NodeAt`.
- Python builds `Homework` and `LongestCommonWord` by subclassing `Trie`. Here they are
  modules whose methods take a `Trie`.
- A wrong argument type or an empty string where a non-empty one is required raises
  `TypeError` in Python. In the model that is `Err(TypeError)`, returned before any
  change.

Two invariants carry the proofs:

- `Trie.Valid()`: the tree is well formed (no character appears twice among a node's
  children), the root holds no value, and `size` is at least the number of stored
  values (`TrieNodes.Count`).
- The ghost flag `Trie.exact`: every `put` so far stored a present value. While it
  holds, `size` equals the number of stored keys and no useless node (no value, no
  children) hangs below the root.

Two behaviours of the code shape the contracts:

- **`put(k, None)`** adds one to `size` whenever the key's node held no value
  (trie.py:19-20), although no key is then stored. `Put`'s contract says exactly this,
  and `Trie.exact` records whether such a call happened.
- **`delete`'s return value** is `_delete`'s prune signal (trie.py:45,54,57): true only
  when the root is left with no children. So deleting "apple" while "app" is stored
  answers false (`TrieExample.DemoDeleteApple`). While `exact` holds, `delete` returns
  true exactly when the key was present and the trie is now empty.

The example runs at the end of each file are replayed as methods whose assertions the
verifier proves:
- trie.py:111-124: `TrieExample.ExamplePuts` makes the four puts and writes out the
  resulting tree node by node. `TrieExample.DemoQueries` then proves the printed
  answers of `keys()`, `keys_with_prefix("ba")`, `get("app")` and
  `longest_prefix_of("application")`. `TrieExample.DemoDeleteApp` proves those of
  `delete("app")`, the `keys()` after it and `is_empty()`.
- `Homework.DemoSuffixCounts` (through `Homework.DemoSuffixCount`) and `Homework.DemoHasPrefix` replay task_1.py:25-39.
- `LongestCommonWord.DemoFlower`, `DemoInters`, `DemoDog` and `DemoSizeAfterNone` replay task_2.py:30-42 and a call after `put(k, None)`.

## Model

| member | source | states |
|---|---|---|
| TrieNodes.Child | trie.py:29 | `children.get(ch)`: absent exactly when no entry has that character; otherwise the entry's node, the only one when characters are distinct |
| TrieNodes.NodeAtConcat | trie.py:78-84 | walking `p + q` is walking `p`, then `q` from the node reached |
| TrieNodes.FindConcat | trie.py:23-32 | looking up `p + q` is looking up `q` below the node of `p` |
| TrieNodes.NodeAtWf | trie.py:78-84 | every node reached by `_get_node` is again well formed |
| TrieNodes.NodeAtPruned | trie.py:39-55 | in a pruned tree, every node on a non-empty path is pruned and holds a value or a child |
| TrieNodes.HoldsKey | trie.py:39-55 | a pruned node that is not useless has some key at or below it |
| TrieNodes.NoKeyIffBare | trie.py:54 | a pruned valueless node holds no key exactly when it has no children |
| TrieNodes.FindBeyond | trie.py:69-72 | once the walk of `longest_prefix_of` breaks off, no longer prefix holds a value |
| TrieNodes.PathIffKeyBelow | trie.py:78-84 | in a pruned tree a non-empty path exists exactly when a stored key extends it |
| TrieNodes.CountZeroIffNoKey | trie.py:59-60 | the number of stored values is zero exactly when no key has a value |
| TrieInsert.InsertWf | trie.py:16-18 | `setdefault` along the key keeps every node's characters distinct |
| TrieInsert.InsertChild | trie.py:18 | one step of `put` keeps the node's value and changes only the child on the key's first character |
| TrieInsert.FindInsert | trie.py:12-21 | after `put(key, v)`, `get(key)` gives `v` and every other key's lookup is unchanged |
| TrieInsert.NodeAtInsert | trie.py:16-18 | after `put`, a path exists exactly when it existed before or is a prefix of the key |
| TrieInsert.CountInsert | trie.py:19-21 | the number of stored values goes up by one for a new present value, down by one when a value is overwritten by `None`, and is otherwise unchanged |
| TrieInsert.PrunedInsert | trie.py:12-21 | putting a present value keeps the tree free of useless nodes |
| TrieDelete.RemoveAbsent | trie.py:46-50 | deleting a key with no value changes nothing and signals no pruning |
| TrieDelete.RemoveSignals | trie.py:39-55 | a value is removed exactly when the key held one; the prune signal is true exactly when it was removed and the node is left with no value and no children |
| TrieDelete.RemoveChild | trie.py:47-55 | one step of `_delete` keeps the node's value and changes only the child on the key's character, removing it when that child signals pruning |
| TrieDelete.RemoveWf | trie.py:39-55 | deleting keeps every node's characters distinct |
| TrieDelete.FindRemove | trie.py:34-57 | after `delete(key)`, `get(key)` gives `None` and every other key's lookup is unchanged |
| TrieDelete.CountRemove | trie.py:41-43 | the number of stored values goes down by one exactly when a value is removed |
| TrieDelete.PrunedRemove | trie.py:52-54 | deleting from a tree without useless nodes leaves none |
| TrieDelete.RemoveTwice | trie.py:34-57 | a second `delete` of the same key changes nothing and answers false |
| TrieKeys.KeysMember | trie.py:97-103 | `_collect(node, path)` lists exactly the strings `path + q` for which `q` has a value below `node` |
| TrieKeys.KeysNoDup | trie.py:97-103 | `_collect` lists no key twice |
| TrieKeys.KeysCount | trie.py:97-103 | `_collect` lists as many keys as the subtree stores values |
| Tries.Collect | trie.py:97-103 | appends to `results` exactly the depth-first key list of `node` below `path`, and leaves `path` as it found it |
| Tries.Trie.constructor | trie.py:7-10 | a fresh trie: a valueless root without children, `size` 0 |
| Tries.Trie.Put | trie.py:12-21 | rejects an empty key with no change; otherwise rebuilds the key's path, sets its value, adds one to `size` when the node had no value, and changes no other key |
| Tries.Trie.Get | trie.py:23-32 | rejects an empty key; otherwise returns the key's value, or `None` when the path or the value is missing |
| Tries.Trie.Delete | trie.py:34-57 | rejects an empty key with no change; otherwise clears the key, lowers `size` by one exactly when it held a value, and changes no other key; an absent key changes nothing; returns true exactly when a value was removed and the root is left without children, which under `exact` means the trie is now empty |
| Tries.Trie.IsEmpty | trie.py:59-60 | answers `size == 0`; a true answer means no key is stored, and under `exact` the converse holds too |
| Tries.Trie.LongestPrefixOf | trie.py:62-76 | rejects an empty string; otherwise returns a prefix of `s` that is a stored key (or is empty), and no longer prefix of `s` is a stored key |
| Tries.Trie.GetNode | trie.py:78-84 | returns the node at the end of the prefix's path, or nothing when the path breaks off |
| Tries.Trie.KeysWithPrefix | trie.py:86-95 | lists, without repetition and in depth-first order, exactly the stored keys that start with the prefix |
| TrieKeys.KeysOne | trie.py:97-103 | at a node with one child, `_collect` lists the node's own key (if it holds a value), then the keys below the child |
| TrieKeys.KeysPair | trie.py:97-103 | at a valueless node with two children, `_collect` lists the first child's keys, then the second's |
| Tries.Trie.Keys | trie.py:105-108 | lists, without repetition and in depth-first order, exactly the stored keys; under `exact` there are `size` of them |
| TrieExample.KeysFresh | trie.py:97-103 | a path created by one `put` of a present value holds exactly one key, the path itself |
| TrieExample.PutApple | trie.py:114-115 | `put("apple", 1)` on a fresh trie builds a single chain of nodes |
| TrieExample.PutApp | trie.py:114-115 | `put("app", 2)` only sets the value of the existing node of "app" |
| TrieExample.PutBanana | trie.py:114-115 | `put("banana", 3)` adds a second child to the root, after the first |
| TrieExample.PutBat | trie.py:114-115 | `put("bat", 4)` adds a second child to the node of "ba" |
| TrieExample.ExamplePuts | trie.py:113-115 | after the four puts the root is the example tree written out node by node, with `Valid()` and `exact` |
| TrieExample.StoredKeys | trie.py:117-123 | `keys()` of the example trie is ["app", "apple", "banana", "bat"], and ["apple", "banana", "bat"] once "app" holds no value |
| TrieExample.BaKeys | trie.py:118 | the keys below "ba" are ["banana", "bat"] |
| TrieExample.FindApp | trie.py:119 | `get("app")` reads the value of the node of "app" |
| TrieExample.ReachBa | trie.py:118 | `_get_node("ba")` reaches the node holding the two children "n" and "t" |
| TrieExample.RemoveApp | trie.py:122 | `delete("app")` clears the value of "app", prunes nothing and signals false |
| TrieExample.OnlyApp | trie.py:120-121 | of the example's keys, only "app" is a prefix of "application" |
| Homework.SuffixCountEmpty | task_1.py:10 | every word ends with the empty pattern |
| Homework.SuffixCountDistinct | task_1.py:10 | on a list without repetition, the count of words ending with the pattern is the size of the set of those words |
| Homework.CountWordsWithSuffix | task_1.py:5-10 | counts exactly the stored keys that end with the pattern; the empty pattern counts every key, which is `size` under `exact` |
| Homework.HasPrefix | task_1.py:12-22 | true exactly when the prefix's path exists, so always for the empty prefix; under `exact` and for a non-empty prefix, exactly when some stored key starts with it |
| Homework.DemoTrie | task_1.py:26-29 | after the four puts the stored keys are exactly "apple", "application", "banana" and "cat" |
| Homework.DemoPath | task_1.py:36-39 | with those keys stored, the path of a prefix of one of them exists |
| Homework.DemoNoBat | task_1.py:37 | with those keys stored, the path "bat" does not exist |
| Homework.MatchingSnoc | task_1.py:10 | appending a word adds it to the matching words exactly when it ends with the pattern |
| Homework.DemoKeys | task_1.py:26-29 | `keys()` of the demo trie lists exactly the four demo words |
| Homework.DemoSuffixSet | task_1.py:31-34 | with those keys stored, the keys ending with a pattern that only one demo word ends with are that word |
| Homework.DemoSuffixCount | task_1.py:31-34 | on the demo trie, `count_words_with_suffix` answers 1 for each of the four patterns |
| LongestCommonWord.InsertAllPath | task_2.py:11-16 | after inserting the strings into a fresh trie, the paths are exactly the prefixes of the strings |
| LongestCommonWord.InsertAllFind | task_2.py:11-16 | after inserting the strings into a fresh trie, exactly the strings hold values |
| LongestCommonWord.InsertAllWf | task_2.py:11-16 | inserting the strings keeps every node's characters distinct |
| LongestCommonWord.OneWayOn | task_2.py:22 | on a common prefix, a valueless node has at least one child |
| LongestCommonWord.ForcedStep | task_2.py:22-25 | at a valueless node with one child on a common prefix, every string continues through that child |
| LongestCommonWord.WalkOne | task_2.py:22-25 | one step of the walk extends a common prefix to a common prefix and reaches the child's node |
| LongestCommonWord.WalkStop | task_2.py:22 | where the walk stops (a value, or no single child), the common prefix reached is the longest |
| LongestCommonWord.WalkFrom | task_2.py:19-25 | walking on from the node of a common prefix ends at the longest common prefix |
| LongestCommonWord.WalkIsLongestCommonPrefix | task_2.py:6-27 | on a fresh trie, the walk spells the longest common prefix of the strings |
| LongestCommonWord.Diverge | task_2.py:22 | two strings that differ at a position share no prefix longer than that position |
| LongestCommonWord.FirstEmpty | task_2.py:11-14 | the position where the insertion loop stops: every string before it is non-empty, and it is the end of the list or an empty string |
| LongestCommonWord.FirstEmptyAt | task_2.py:11-14 | that stopping position is unique |
| LongestCommonWord.PrefixStep | task_2.py:11-16 | one round of the loop inserts the next non-empty string under its position |
| LongestCommonWord.Walk | task_2.py:19-25 | the closing loop collects exactly the characters of the walk down single-child, valueless nodes |
| LongestCommonWord.InsertAllFindFrom | task_2.py:11-16 | after the insertion loop, a key holds a value exactly when it is one of the strings or held one before |
| LongestCommonWord.UnsetStep | task_2.py:16 | one more `put` raises the number of inserted strings that held no value before by one exactly when the next string holds none yet, as trie.py:19-20 counts it |
| LongestCommonWord.PutAll | task_2.py:11-16 | puts the strings under their positions up to the first empty one, says whether it got through the list, and adds to `size` one per distinct inserted string that held no value before |
| LongestCommonWord.FindLongestCommonWord | task_2.py:6-27 | rejects an empty list with no change; puts the strings under their positions up to the first empty one, adding to `size` one per distinct inserted string that held no value before, and rejects the list if there is an empty one; otherwise returns the walk, which on a fresh trie is the longest common prefix |
| LongestCommonWord.OnFreshTrie | task_2.py:31-32 | a fresh `LongestCommonWord()` answers the longest common prefix of a valid list |
| LongestCommonWord.PinDown | task_2.py:30-42 | among three strings, a common prefix after which two of them differ is the only longest common prefix |

## Left out

- In-place mutation and object identity: `put` and `delete` change nodes in place in Python; the model rebuilds the path as a new value, so aliasing of nodes (none escapes the trie) is not modelled.
- Tries.Collect: Python's `_collect` appends to and pops from caller-owned lists; the model passes `path` and `results` in and returns their new values.
- Tries.Trie.GetNode: the Python method returns a live node that the callers only read; the model returns the node value.
- Run-time type checks (`isinstance`) and the text of the `TypeError` messages: a Dafny argument always has its declared type, so only the empty-string and empty-list cases are modelled, as `Err(TypeError)`.
- Dictionary hashing: children are an insertion-ordered association list, looked up by a linear scan.
- The `print` calls of the example runs: printing is I/O; the printed values are asserted instead.
- LongestCommonWord.FindLongestCommonWord: the longest-common-prefix property is stated only for a trie that was empty before the call, because keys already stored change the walk.
- Homework.HasPrefix, Tries.Trie.IsEmpty and Tries.Trie.Keys: the statements that link the answer to stored keys, not merely to paths or `size`, hold only while `exact` does; after a `put(k, None)` the code itself no longer keeps `size` or the tree in step with the stored keys.
