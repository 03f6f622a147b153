# Prefix tree of the autocomplete service, modelled in Dafny

The autocomplete feature of this dictionary service is backed by an in-memory prefix tree
(a trie), written out in `emcbackend/src/testing2.py`:

- `TrieNode` holds a dict `children` from a character to a child node and a flag
  `is_end_of_word`.
- `Trie` owns a root node. It offers `insert(word)`, `search(word)` and `starts_with(prefix)`.
  The last of these walks to the node of the prefix and collects the words below it with the
  recursive helper `_dfs(node, prefix, words)`.
- A short script at the end of the file inserts five words and prints `starts_with("eat")`.

The model has two modules.

`TrieSpec` (`trie_model.dfy`) is the abstract value of a trie, `TrieModel`:
- `order` maps the path of every node to the symbols of its children, in the order they were
  added. Iterating a Python dict yields its keys in that order, and `_dfs` visits children in
  that order.
- `ends` is the set of stored words, that is, the paths whose node has `is_end_of_word` set.

On top of that value the module defines:
- the walk of `insert` (`Step`, `Walk`, `AddPath`, `Inserted`);
- the listing `_dfs` produces (`Listing`, `ListKids`) and the result of `starts_with`
  (`Completions`);
- the lemmas that state what those operations promise.

`PrefixTrie` (`trie.dfy`) holds the classes `TrieNode` and `Trie` as objects updated in place.
- A node keeps its dict as the map `children` plus `childOrder`, the keys in insertion order.
- `Trie.Valid()` ties the objects to the abstract value through the ghost map `nodeAt`, from a
  path to its node. Every node records its own path, so distinct paths lead to distinct nodes:
  there is no sharing and no cycle. Every node agrees with the abstract value, and the edge
  labelled `c` out of the node at `s` leads to the node at `s + [c]`.
- `Insert`, `Search`, `StartsWith` and `Dfs` are methods with the loops and the recursion of
  the Python code.
- Each method is proved against the functions of `TrieSpec`, and the lemmas there carry what
  the trie promises:
  - membership after `insert`;
  - `insert` creates nodes only on the path of the word and keeps the old ones;
  - `insert` is idempotent;
  - `starts_with` returns exactly the stored words that extend the prefix, each once, each
    before its own extensions;
  - the script's output is `["eating", "eatingea"]`.

## Model

| member | source | states |
|---|---|---|
| TrieSpec.Empty | emcbackend/src/testing2.py:8-9 | A new trie stores no word and is well formed. |
| TrieSpec.AddChildWellFormed | emcbackend/src/testing2.py:15-17 | Creating the missing child `c` of the node at `s` keeps the tree shape (children listed once, every child a node, every node below its parent). It adds exactly the one node `s + [c]`. |
| TrieSpec.Step | emcbackend/src/testing2.py:14-18 | One turn of the loop of `insert` keeps the stored words and adds exactly the node `w[..i+1]` when it was missing. When that child already exists, it changes nothing. |
| TrieSpec.Walk | emcbackend/src/testing2.py:13-18 | The rest of the loop of `insert` ends with a node for the whole word. It removes no node and changes no stored word. |
| TrieSpec.AddPath | emcbackend/src/testing2.py:12-18 | The loop of `insert` from the root leaves a node for the word, keeps every node and keeps the stored words. |
| TrieSpec.Inserted | emcbackend/src/testing2.py:11-19 | After `insert(w)`, `w` is a node. The stored words are exactly the old ones plus `w`, so no other word is added or lost, the empty word included. |
| TrieSpec.InsertedAll | emcbackend/src/testing2.py:50-51 | After inserting the words of a list one by one, the stored words are exactly those of the list plus the old ones. |
| TrieSpec.StepWellFormed | emcbackend/src/testing2.py:14-18 | One turn of the loop of `insert` keeps the tree well formed. |
| TrieSpec.WalkWellFormed | emcbackend/src/testing2.py:13-18 | The rest of the loop of `insert` keeps the tree well formed. |
| TrieSpec.InsertedWellFormed | emcbackend/src/testing2.py:11-19 | `insert` keeps the tree well formed. |
| TrieSpec.InsertedAllWellFormed | emcbackend/src/testing2.py:50-51 | Inserting a list of words keeps the tree well formed. |
| TrieSpec.PrefixClosed | emcbackend/src/testing2.py:13-18 | Every prefix of a node's path is itself a node, because `insert` creates nodes parent first. |
| TrieSpec.NotOnPath | emcbackend/src/testing2.py:24-26 | When the walk along `w` finds no child after `k` symbols, `w` is neither a node nor a stored word. This is why `search` may answer False there and `starts_with` may answer `[]`. |
| TrieSpec.ChildOnPath | emcbackend/src/testing2.py:44-45 | For a node below `s`, the symbol after `s` on its path is a child symbol of `s`, so the child loop of `_dfs` reaches every node below `s`. |
| TrieSpec.WalkNodes | emcbackend/src/testing2.py:13-18 | The rest of the loop of `insert` adds exactly the prefixes of the word longer than `i` that were missing. |
| TrieSpec.AddPathNodes | emcbackend/src/testing2.py:13-18 | `insert` creates nodes only along the path of the word: the nodes afterwards are the old ones plus the prefixes of the word. |
| TrieSpec.WalkPresent | emcbackend/src/testing2.py:14-17 | When the path of the word already exists, the rest of the loop creates nothing. |
| TrieSpec.AddPathPresent | emcbackend/src/testing2.py:14-17 | When the path of the word already exists, a child is never created (`children.get` never gives None), so the tree is unchanged. |
| TrieSpec.InsertedIdempotent | emcbackend/src/testing2.py:14-19 | Inserting a stored word changes nothing, and inserting the same word twice is the same as inserting it once. |
| TrieSpec.BelowShrinks | emcbackend/src/testing2.py:44-45 | The subtree of a child is strictly smaller than the subtree of its parent, so the recursion of `_dfs` ends. |
| TrieSpec.ListingFacts | emcbackend/src/testing2.py:41-45 | What `_dfs` appends for the node at `s` is exactly the stored words that extend `s`. It has no repetition, and a word always comes before its extensions (pre-order). |
| TrieSpec.ListKidsFacts | emcbackend/src/testing2.py:44-45 | The listings of the first `n` children of `s` hold exactly the stored words below `s` whose next symbol is one of those `n` children. They have no repetition and are in pre-order. |
| TrieSpec.CompletionsExact | emcbackend/src/testing2.py:30-39 | `starts_with(p)` returns exactly the stored words that begin with `p`, each once, with a stored prefix before its extensions. It returns the empty list when the path of `p` is missing. |
| TrieSpec.CompletionsOfEmpty | emcbackend/src/testing2.py:30-39 | `starts_with("")` returns every stored word. |
| TrieSpec.ScriptResult | emcbackend/src/testing2.py:48-53 | In any well-formed trie that stores exactly `hello`, `working`, `sleeping`, `eating` and `eatingea`, `starts_with("eat")` is `["eating", "eatingea"]`. |
| PrefixTrie.TrieNode.constructor | emcbackend/src/testing2.py:2-4 | A new node has no children and is not the end of a word. |
| PrefixTrie.TrieNode.Link | emcbackend/src/testing2.py:17 | Storing a new key in the children dict maps it to the new node and puts it last in the iteration order. Nothing else in the node changes. |
| PrefixTrie.Trie.constructor | emcbackend/src/testing2.py:8-9 | A new trie satisfies the object invariant, is a lone root, and stores no word. |
| PrefixTrie.Trie.Insert | emcbackend/src/testing2.py:11-19 | `insert(word)` keeps the invariant and matches `Inserted`. The stored words become the old ones plus `word`. The nodes become the old ones plus the prefixes of `word`. Every old node is still the same object. When the path of `word` existed already, no object is created at all. |
| PrefixTrie.Trie.Reach | emcbackend/src/testing2.py:12-18 | The loop of `insert` ends at the node of `word` and keeps the invariant. It changes the abstract value as `AddPath` says, keeps every old node, and creates nothing when the path existed. |
| PrefixTrie.Trie.Descend | emcbackend/src/testing2.py:14-18 | One turn of the loop moves to the child for `w[i]` and changes the abstract value as `Step` says. It creates exactly one fresh node when the child was missing and nothing otherwise. |
| PrefixTrie.Trie.AddChildNode | emcbackend/src/testing2.py:15-17 | The missing child is a fresh node added under the node at `s`, and the invariant still holds. |
| PrefixTrie.Trie.ChildAdded | emcbackend/src/testing2.py:16-17 | Adding the child changes only the parent node and the new node, so the object invariant survives it. |
| PrefixTrie.Trie.OthersKept | emcbackend/src/testing2.py:16-17 | Adding the child leaves the node at every other path the same object with the same fields. |
| PrefixTrie.Trie.MarkEnd | emcbackend/src/testing2.py:19 | Setting `is_end_of_word` on the last node adds the word to the stored words. It keeps every node and the invariant. |
| PrefixTrie.Trie.EndMarked | emcbackend/src/testing2.py:19 | Setting the flag changes no other node, so the object invariant survives it. |
| PrefixTrie.Trie.Search | emcbackend/src/testing2.py:21-28 | `search(word)` is True exactly when `word` is stored. It is False when the walk finds no child edge, and also when the walk ends at a node that is not a word end. |
| PrefixTrie.Trie.StartsWith | emcbackend/src/testing2.py:30-39 | `starts_with(prefix)` returns `Completions`: exactly the stored words that begin with `prefix`, each once and in pre-order, or `[]` when the path of `prefix` is missing. |
| PrefixTrie.Trie.Dfs | emcbackend/src/testing2.py:41-45 | `_dfs` appends to `words` the listing of the node at `prefix`: the prefix itself when it is a word end, then the listings of the children in dict order. |
| PrefixTrie.InsertWords | emcbackend/src/testing2.py:50-51 | The loop of the script keeps the invariant and leaves the abstract value `InsertedAll`. |
| PrefixTrie.InsertThenSearch | emcbackend/src/testing2.py:11-28 | After `insert(w)`, `search(w)` returns True, the empty word included, and the stored words are the old ones plus `w`. |
| PrefixTrie.Script | emcbackend/src/testing2.py:48-53 | The script's `starts_with("eat")` gives `["eating", "eatingea"]`. |

## Left out

- The rest of the repository is not part of this model: the HTTP routes, the database models and sessions, the search-index sketch, and the HTTP test drivers. They are I/O over libraries.
- The service's startup code in `main.py` is not modelled. It builds a trie of the unseen class from `app/trie.py`, and it inserts the rows returned by a one-column database query, not strings. Passed to the `insert` shown here, each row would be iterated as one element, so the whole word would become a single edge under the root. `search` would then find only the one-character startup words, and `starts_with` would list the longer ones only for the empty prefix, whose listing builds each key as `"" + word`. `InsertWords` models only the script's loop over a list of strings.
- The autocomplete endpoint calls a `search` from `app/trie.py` and keeps the first ten results. `app/trie.py` is not part of this model, and the `search` shown here returns a bool, so the endpoint cannot be tied to it.
- The `print` of the script's last line is I/O. `Script` returns the printed list instead.
- `_dfs` appends to a list owned by its caller. `Dfs` takes the list as a sequence and returns the extended sequence, so aliasing of that list object is not modelled.
- Python's recursion limit is not modelled: `_dfs` recurses once per symbol, so a word longer than about a thousand characters would raise `RecursionError` in Python.
- Python strings are modelled as sequences of `char`, one per code point. Python's `str` indexes code points too. Dafny's `char` is a Unicode scalar value, so it cannot hold the surrogate code points U+D800 to U+DFFF, which a Python `str` can (for example from a JSON body containing `"\ud800"`); words with such code points are not covered.
- There is no concurrency control in the code, so none is modelled. Concurrent inserts against a shared trie are not covered.
- The code has none of the following, and neither has the model:
  - there is no word removal or pruning;
  - there is no bound `k` on the number of results and no early exit;
  - children are visited in dict insertion order, not in symbol order, so results are not sorted;
  - there is no word count and no maximum word length;
  - there is no not-ready state;
  - the empty word is accepted: `insert("")` marks the root.
- The `Repr`, `nodeAt`, `model` and `path` fields exist only for the proofs and have no Python counterpart.
