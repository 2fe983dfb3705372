# Trie dictionary

A model of the word dictionary of a spell checker. The dictionary stores a word
list in a 27-way trie (prefix tree) and answers membership queries. Each node
holds a word buffer and one child pointer per slot. The 26 letters take slots 0-25
in alphabetical order, in either case. The apostrophe takes slot 26.

The model has five modules:

- `Chars`: the C-locale `tolower`, the `hash` from a character to its slot, the
  inverse `Letter` from a slot to its lower-case character, and the lower-cased
  copy of a query.
- `Trie`: the node (`Node`), `create_node` (`Empty`), the insertion loop of `load`
  (`InsertAt`, `Insert`, and the fold `InsertAll`), the allocation count of one
  insertion (`FreshNodes`), and `check` (`Walk` then `Check`). It also holds the
  lemmas about membership after insertion. `Listed` is a declarative reference
  answer that uses only the word list. `Sound` is the representation invariant:
  every stored word spells the path to its node.
- `Teardown`: `clean`, the recursive post-order release. `Clean` returns the order
  in which the nodes are freed, each named by its path of slots.
- `Dictionary`: the global `root` pointer and `words` counter, turned into a
  `Store` value that each operation takes and returns. This module holds `load`,
  `size`, `check` and `unload`.
- `Wrappers`: `Option`, which stands for a pointer that may be NULL.

How the code's environment appears in the model:

- The word file is a parameter. `Load` takes `source`, the list of tokens `fscanf`
  would read, or `None` when the file cannot be opened.
- `malloc` is a parameter. `heap` is the number of node allocations that succeed,
  the root's included.
- `LENGTH` comes from the dictionary header, which is not part of this model. It is
  an unspecified constant.
- `words` is an `unsigned int`, so it counts modulo 2^32.
- `Check` is a pure function of the trie and the query, so it cannot change the
  trie or the counter.

Behaviour of the code that a caller may not expect, kept in the model:

- `unload` does not clear `root` and does not reset `words`. After it, `Size` still
  reports the old count, and the root is `Released`: in the code it points at freed
  memory. A later `load` adds to the counter rather than starting from zero.
- A failed `load` does not restore the empty state. If the root allocation fails,
  the root is NULL (`Unset`). On any later failure the trie is released through
  `unload`, so the root dangles (`Released`) and the counter keeps the tokens
  already inserted.
- A token is stored with its original casing, and `check` compares against the
  lower-cased query. So a token containing an upper-case letter can never be
  matched. It also overwrites, and so hides, an earlier lower-case spelling of the
  same letters.
- `check("")` is true on every loaded trie, because the root's word is "".
- `check` and `unload` before any `load` dereference a NULL root. In the model they
  require a `Live` root.

## Model

| member | source | states |
|---|---|---|
| Chars.Hash | dictionary.c:15-25 | the apostrophe goes to slot 26 and no other character does; a letter of either case goes to its 0-based alphabet position; every valid character lands in [0, 26] |
| Chars.Letter | dictionary.c:15-25 | each slot has a valid, not upper-case character that `hash` sends back to that slot (the inverse of `hash`) |
| Chars.HashFoldsCase | dictionary.c:23 | hash(c) == hash(tolower(c)), and the slot's character is tolower(c) |
| Chars.HashInjective | dictionary.c:15-25 | two valid characters share a slot exactly when they are equal after lower-casing |
| Chars.Lower | dictionary.c:128-134 | the lower-cased copy has the query's length, and each character is tolower of the query's character |
| Trie.Empty | dictionary.c:190-206 | a new node is well formed, has the empty word and all 27 children absent |
| Trie.FreshNodes | dictionary.c:82-97 | inserting a token allocates at most one node per character, and none exactly when the token's path already exists |
| Trie.InsertCount | dictionary.c:77-106 | inserting a token adds to the trie exactly the nodes FreshNodes counts: one `create_node` per character from the first missing child on |
| Trie.InsertAt | dictionary.c:77-106 | insertion keeps every node at 27 slots and leaves the cursor's word alone until the characters run out |
| Trie.Insert | dictionary.c:77-107 | inserting one token from the root keeps the trie well formed and grows it by exactly FreshNodes nodes; what it stores is stated by InsertStores and CheckInsert below |
| Trie.InsertAll | dictionary.c:75-108 | the trie built from a token list is well formed |
| Trie.Walk | dictionary.c:136-149 | the cursor only ever rests on well-formed nodes; which node it reaches is stated by WalkFolds (it depends only on the lower-cased query) and MissingPrefix (any missing child ends the walk) |
| Trie.Check | dictionary.c:124-160 | a hit needs the query's whole path to exist, and the word stored at its end to have the query's length and no upper-case letter; the full answer is stated by CheckFolds, MissingPrefix, CheckInsert and LoadedMembership |
| Trie.InsertAtWordAt | dictionary.c:77-106 | after an insertion, the path of the token (up to case) stores the token verbatim; every other existing path keeps its word; a path that did not exist is still missing or ends in a new node with no word |
| Trie.InsertStores | dictionary.c:77-106 | after inserting w, walking w's characters from the root reaches a node whose word is exactly w |
| Trie.CheckInsert | dictionary.c:77-160 | after inserting w, check(q) for q with the same lower-cased letters is true exactly when w is all lower-case and equals lower(q); for any other q the answer is unchanged |
| Trie.UppercaseTokenUnmatched | dictionary.c:106-152 | after inserting a token with an upper-case letter, no casing of that token is a member |
| Trie.WalkFolds | dictionary.c:136-149 | the node check's cursor reaches depends only on the lower-cased query |
| Trie.CheckFolds | dictionary.c:124-160 | check(q) == check(lower(q)) for every valid query |
| Trie.MissingPrefix | dictionary.c:138-149 | a child missing anywhere along a prefix of the query makes the walk fail and check return false |
| Trie.CheckEmpty | dictionary.c:190-206 | on a fresh node only the empty query is a member |
| Trie.LoadedMembership | dictionary.c:75-160 | after loading a list, check(q) holds exactly when q is empty or lower(q) is a token that no later token with the same letters overwrote |
| Trie.EmptyQueryAccepted | dictionary.c:57-61 | check("") is true on every loaded trie, because the root's word stays "" |
| Trie.LowercaseListMembership | dictionary.c:124-160 | for a list of lower-case tokens, check(q) holds exactly when q is empty or lower(q) is in the list, duplicates included |
| Trie.AppleScenario | dictionary.c:124-160 | after loading apple, app, apt: APPLE and App are members, and the intermediate prefix ap is not |
| Trie.InsertAtSound | dictionary.c:93-106 | insertion keeps the invariant that each stored word spells, up to case, the path from the root to its node |
| Trie.LoadedSound | dictionary.c:74-108 | a loaded trie satisfies that invariant from the root |
| Teardown.Clean | dictionary.c:177-188 | clean returns true, frees every node of the subtree exactly once and nothing else, frees each node after all its descendants, and frees the node itself last |
| Dictionary.Load | dictionary.c:49-115 | load succeeds exactly when a root is left live; on success the root is the fold of insert over the tokens and size grows by the token count modulo 2^32, duplicates counted; a failed root allocation leaves the root NULL; an unopenable file or a failed node allocation leaves it released with the counter as it was, or as the inserted tokens left it; enough memory for one node per character guarantees success |
| Dictionary.InsertTokens | dictionary.c:74-108 | the token loop of load inserts and counts the tokens in order; on success the trie is the fold of insert over all of them and the counter grew by their number modulo 2^32; on failure the counter grew by the tokens inserted so far; memory for one node per character rules failure out |
| Dictionary.Size | dictionary.c:117-121 | size is 0 before any load; how load changes it is Load's AddWords clause, and Unload leaves it unchanged |
| Dictionary.Check | dictionary.c:124-160 | check on the loaded trie ignores the query's casing: it answers as for the lower-cased query, and a hit ends the query's path from the root |
| Dictionary.Unload | dictionary.c:163-175 | unload returns true, frees every node of the trie exactly once, each after all its descendants and the root last, leaves the root released and leaves size unchanged |

## Left out

- File I/O (`fopen`, `fscanf`, `fclose`): `Load` receives the tokens already read. The code also leaves the file open when a node allocation fails. That is not modelled.
- Memory ownership: the model does not track `free` or leaks. The trie a repeated `load` abandons and the nodes built for a token whose insertion fails are not represented. `heap` only decides which allocation fails.
- Dictionary.Load: token validity (letters and apostrophes only) and the `LENGTH` bound are a precondition, because the code reads them into fixed buffers unchecked. `LENGTH` itself is unspecified, because the header that defines it is not part of this model.
- Chars.Hash: the result for a character that is not a letter or apostrophe is left out. The C code computes an index that is out of range there, or, for `{`, the apostrophe's slot 26, so the model makes valid characters a precondition of `hash` and of `check`.
- `tolower` outside the "C" locale is left out. The model folds only ASCII `A`-`Z`.
- Dictionary.Check and Dictionary.Unload on a root that is NULL or already released are left out. In the code both dereference a NULL or freed pointer, so the model requires a live root.
- Concurrency: the code has none.
