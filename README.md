# Chained hash table, bag of words and list intersection in Dafny

This project models a small C++ exercise repository in Dafny and proves its
behaviour.

- `chainhash.h` is a generic hash table with separate chaining (`ChainHash<TK, TV>`):
  - every bucket holds a singly linked chain of nodes;
  - each node caches the hash code of its key;
  - new keys go to the front of their chain;
  - the table keeps a per-bucket size counter and a count of non-empty buckets;
  - it doubles its capacity when a chain grows past three nodes or when more than 80% of the buckets are in use.
- `p2.cpp` builds an inverted index ("bag of words") over a list of documents, using that table.
- `p3.cpp` builds singly linked lists and joins two of them at a shared value. It then finds the first node the two lists share, using the table keyed by node identity.

The three Dafny modules follow the three source files:

- `chainhash.dfy`, module `ChainHashing`:
  - the node and iterator values;
  - the representation invariant (`Consistent`) over the chains and counters;
  - the lemmas showing that updating, prepending, unlinking and rebuilding keep that invariant;
  - the class `ChainHash`. Its methods change the bucket array and the counters in place. Each method is proved against the abstract map `contents`.
- `bag_of_words.dfy`, module `BagOfWords`:
  - the character classes;
  - `toLowerCase`;
  - `tokenize`, as a loop over white-space separated pieces, proved equal to a recursive specification `Tokens`;
  - `bagOfWords`, proved to build exactly the index `Index(WordLists(documents), |documents|)`. That index maps every word to the increasing list of the documents that contain it.
- `intersection.dfy`, module `ListIntersection`:
  - the heap class `ListNode`;
  - the list operations, specified with ghost paths (the sequence of nodes a list walks through);
  - `connectLists`, specified by the exact new `next` field of every node;
  - `getIntersectionNode`, proved to return the first node of list B that list A also reaches;
  - `testIntersection` and the five cases of `main`.

## Model

| member | source | states |
|---|---|---|
| ChainHashing.Next | chainhash.h:41-44 | `++` on an iterator moves to the rest of the chain; on the end iterator it stays put |
| ChainHashing.NextAdvances | chainhash.h:41-44 | advancing the iterator at position j of a chain gives the iterator at position j+1 |
| ChainHashing.IteratorsCompareByPosition | chainhash.h:46-54 | two iterators into the same chain are equal (and `!=` is false) exactly when they stand at the same position |
| ChainHashing.SumUpdate | chainhash.h:152 | changing one bucket counter changes the total by the difference |
| ChainHashing.CountNonEmptyUpdate | chainhash.h:149-151 | the number of used buckets goes up or down by one exactly when a bucket counter leaves or reaches zero |
| ChainHashing.SumOfZeros | chainhash.h:73-76 | freshly zeroed counters give zero elements and zero used buckets |
| ChainHashing.EmptyConsistent | chainhash.h:71-77 | empty chains with zero counters represent the empty map |
| ChainHashing.Located | chainhash.h:79-87 | a key is in the table iff some node of chain `hash(key) % capacity` carries it, so searching that one chain suffices |
| ChainHashing.SameContentsSameNodes | chainhash.h:257-261 | two placed tables with the same contents hold every node of the first in the chain its cached hash selects in the second |
| ChainHashing.UpdateKeepsConsistent | chainhash.h:133-141 | overwriting the value of an existing node keeps the invariant and maps the key to the new value, with the counters unchanged |
| ChainHashing.UpdateKeepsPlacement | chainhash.h:137 | changing a node's value keeps every node in its bucket and the keys distinct |
| ChainHashing.UpdateKeepsStored | chainhash.h:137 | after the overwrite every node agrees with the updated map |
| ChainHashing.UpdateKeepsCovered | chainhash.h:137 | after the overwrite every key of the updated map still has a node |
| ChainHashing.InsertKeepsConsistent | chainhash.h:143-153 | prepending a node for a new key keeps the invariant, adds the key, adds one element and marks the bucket used if it was empty |
| ChainHashing.InsertKeepsPlacement | chainhash.h:144-146 | a new node in the bucket of its own hash keeps every node placed and the keys distinct |
| ChainHashing.InsertKeepsStored | chainhash.h:144-146 | after the prepend every node agrees with the map extended by the new key |
| ChainHashing.InsertKeepsCovered | chainhash.h:144-146 | after the prepend every key of the extended map has a node |
| ChainHashing.InsertKeepsCounters | chainhash.h:148-153 | the incremented counters match the chains after the prepend |
| ChainHashing.RemoveKeepsConsistent | chainhash.h:172-191 | unlinking a node keeps the invariant, removes its key, subtracts one element and releases the bucket if it becomes empty |
| ChainHashing.DropKeepsPlacement | chainhash.h:174-182 | unlinking keeps placement and distinct keys, no remaining node has the removed key, and every other node stays in its bucket |
| ChainHashing.DropKeepsStored | chainhash.h:174-182 | after the unlink the remaining nodes agree with the map without the key |
| ChainHashing.DropKeepsCovered | chainhash.h:174-182 | after the unlink every remaining key still has a node |
| ChainHashing.DropKeepsCounters | chainhash.h:185-189 | the decremented counters match the chains after the unlink |
| ChainHashing.MoveNode | chainhash.h:253-270 | moving the next node of the old chains adds a key not yet moved, with its cached hash equal to the key's hash |
| ChainHashing.MovedAll | chainhash.h:251-272 | once every old chain is walked, the moved entries are exactly the table's contents |
| ChainHashing.MoveChain | chainhash.h:252-271 | moving one old chain into the new arrays keeps the new table consistent with the entries moved so far |
| ChainHashing.Rebuild | chainhash.h:244-272 | the rebuilt arrays of the new capacity represent the same map, with fresh counters, and every old node lies in bucket `hashcode % newCapacity` |
| ChainHashing.FillTestMatchesFloat | chainhash.h:108-110 | for every capacity below 2^24, the integer test `5 * used > 4 * capacity` holds exactly when `used / capacity` exceeds the float `0.8f` (13421773 / 2^24) of line 8 |
| ChainHashing.ChainHash.FillFactorExceeded | chainhash.h:156 | `fillFactor() > maxFillFactor`: the used buckets exceed four fifths of the capacity |
| ChainHashing.ChainHash.InsertionGrows | chainhash.h:149-156 | the resize test `set` applies after inserting a new key, evaluated on the table before the insertion: the key's chain would exceed 3 nodes, or the used buckets (counting the key's bucket if it was empty) would exceed four fifths of the capacity |
| ChainHashing.ChainHash.Bucket | chainhash.h:80-81 | the bucket index of a key lies within the capacity |
| ChainHashing.ChainHash.constructor | chainhash.h:71-77 | a new table of the given capacity is empty, with all counters zero |
| ChainHashing.ChainHash.Get | chainhash.h:79-89 | returns the key's value when present, and the key-not-found error otherwise |
| ChainHashing.ChainHash.Size | chainhash.h:91 | the element count equals the number of keys in the table |
| ChainHashing.ChainHash.BucketCount | chainhash.h:93 | the bucket count is the (positive) length of the bucket array |
| ChainHashing.ChainHash.BucketSize | chainhash.h:95-98 | for an index in range, the length of that chain; otherwise the index-out-of-range error |
| ChainHashing.ChainHash.Contains | chainhash.h:202-215 | true exactly when the key is in the table |
| ChainHashing.ChainHash.Begin | chainhash.h:219-224 | for an index in range, an iterator over the whole chain of `bucket_size(index)` nodes; otherwise the index-out-of-range error |
| ChainHashing.ChainHash.End | chainhash.h:228-233 | for an index in range, the past-the-end iterator; otherwise the index-out-of-range error |
| ChainHashing.ChainHash.Entries | chainhash.h:219-233 | walking from `begin(index)` to `end(index)` visits exactly `bucket_size(index)` nodes, in chain order; each is a stored entry that belongs in that bucket |
| ChainHashing.ChainHash.Unlink | chainhash.h:173-189 | the j-th node leaves its chain, its key leaves the map, and the counters go down accordingly |
| ChainHashing.ChainHash.Remove | chainhash.h:163-198 | returns true iff the key was present, and the key is gone afterwards. When it was present, exactly its node leaves the key's chain, the other nodes keep their order, every other chain is unchanged, and the counters go down accordingly. Otherwise nothing changes |
| ChainHashing.ChainHash.Overwrite | chainhash.h:133-139 | the found node gets the new value and nothing else changes |
| ChainHashing.ChainHash.PushFront | chainhash.h:143-153 | a new node with the cached hash goes in front of its chain, and the counters are updated |
| ChainHashing.ChainHash.Set | chainhash.h:126-159 | the key maps to the value. For an existing key, only that node's value changes. For a new key, the node is prepended and the counters updated; the capacity doubles exactly when the collision or fill-factor test fires |
| ChainHashing.ChainHash.Rehashing | chainhash.h:236-277 | the capacity doubles, the map and element count are unchanged, the counters are recomputed, and every old node lands in bucket `hashcode % newCapacity` |
| BagOfWords.IsSpace | p2.cpp:22 | the white space that `>>` skips in the "C" locale: space, tab, newline, vertical tab, form feed and carriage return |
| BagOfWords.IsAlnum | p2.cpp:25 | `isalnum` in the "C" locale: ASCII digits and upper- and lower-case letters |
| BagOfWords.ToLower | p2.cpp:12 | upper-case ASCII letters map to their lower-case letters; every other character is unchanged |
| BagOfWords.ToLowerCase | p2.cpp:11-14 | same length, each character lowered |
| BagOfWords.LowerCaseProperties | p2.cpp:11-14 | the result has no upper-case letter, keeps which characters are alphanumeric, and lowering is idempotent |
| BagOfWords.KeepAlnumFilters | p2.cpp:24-25 | the filter keeps only alphanumeric characters, never lengthens the word, and is the identity exactly on all-alphanumeric words |
| BagOfWords.KeepAlnumAppend | p2.cpp:24-25 | the filter distributes over concatenation |
| BagOfWords.EraseNonAlnum | p2.cpp:24-25 | the in-place erase/remove_if leaves the filtered word as the array's prefix |
| BagOfWords.PieceEnd | p2.cpp:22 | `>>` reads a maximal run of non-space characters |
| BagOfWords.PiecesAreRuns | p2.cpp:22 | every piece read by `>>` is non-empty and free of white space |
| BagOfWords.EmitIsWord | p2.cpp:24-29 | one piece gives at most one word, which is non-empty, lower-case and alphanumeric |
| BagOfWords.EmitAllAppend | p2.cpp:22-30 | the words of a concatenation of pieces are the words of each part |
| BagOfWords.EmitAllAreWords | p2.cpp:22-30 | a list of pieces gives at most as many words, all non-empty, lower-case and alphanumeric |
| BagOfWords.TokensAreWords | p2.cpp:17-32 | tokenize yields no more words than pieces, each non-empty, lower-case and alphanumeric |
| BagOfWords.EmitAllFrom | p2.cpp:22-30 | reading at the start of a piece emits that piece's word and then carries on after it |
| BagOfWords.ReadPiece | p2.cpp:22-29 | one step of the loop: reads up to the end of the piece and produces its cleaned, lowered word when one is left |
| BagOfWords.Tokenize | p2.cpp:17-32 | the words are exactly `Tokens(text)` |
| BagOfWords.PiecesOfJoin | p2.cpp:22 | the pieces of two texts joined by a space are the pieces of each, in order |
| BagOfWords.TokensOfJoin | p2.cpp:17-32 | the words of two texts joined by a space are the words of the first followed by those of the second |
| BagOfWords.TokensOfPiece | p2.cpp:22-29 | a text with no white space is one piece, and its words are that piece's cleaned word |
| BagOfWords.IndexOfNone | p2.cpp:36 | before any document, the index is empty |
| BagOfWords.ContainingMembers | p2.cpp:39-70 | a word's document list holds exactly the indices of the documents containing the word |
| BagOfWords.ContainingIncreasing | p2.cpp:50-61 | a word's document list is strictly increasing, so it has no duplicates |
| BagOfWords.ContainingEmpty | p2.cpp:63-67 | a word has an empty list iff no document so far contains it |
| BagOfWords.IndexCharacterized | p2.cpp:35-73 | the final index has a key for exactly the words occurring in some document; its list holds exactly those documents, increasing |
| BagOfWords.PartialStep | p2.cpp:44-68 | a word seen before in the same document leaves the index unchanged; otherwise the current document is appended to its list, which is created if absent |
| BagOfWords.PartialEnds | p2.cpp:39-70 | processing all words of document d turns the index of the first d documents into that of the first d+1 |
| BagOfWords.Listed | p2.cpp:50-56 | the duplicate check is true iff the document is already in the list |
| BagOfWords.AddWord | p2.cpp:44-68 | one word extends the partial index by exactly one step, and the capacity never shrinks |
| BagOfWords.AddDocument | p2.cpp:40-69 | one document turns the index of the first d documents into that of the first d+1 |
| BagOfWords.BagOfWords | p2.cpp:35-73 | the table holds exactly the index of all documents, its hash is the given one, and its capacity is at least the initial 13 |
| ListIntersection.ListNode.constructor | p3.cpp:11 | a new node holds the value and no successor |
| ListIntersection.WalkDistinct | p3.cpp:8-12 | the nodes of a null-terminated list are pairwise distinct |
| ListIntersection.NoRepeat | p3.cpp:8-12 | a linked path ending in null visits no node twice |
| ListIntersection.FirstWithValue | p3.cpp:46-52 | the first position whose node has the value, or the length when none has it |
| ListIntersection.FirstShared | p3.cpp:113-124 | the first position of list B whose node also belongs to list A, or the length when none does |
| ListIntersection.FirstSharedIsUnique | p3.cpp:113-124 | any position with no shared node before it and a shared node at it is the first shared position |
| ListIntersection.CreateList | p3.cpp:15-27 | returns a fresh null-terminated list whose node values are the vector in order; null for the empty vector |
| ListIntersection.FindNode | p3.cpp:46-52 | returns the first node with the value, or null when there is none |
| ListIntersection.FoundIff | p3.cpp:46-52 | findNode on a created list succeeds iff the value is in the vector |
| ListIntersection.Predecessor | p3.cpp:66-72 | the loop stops with the node before `nodoB` in list B, or null when `nodoB` is the head |
| ListIntersection.Relink | p3.cpp:75-91 | after the relinking, list A keeps its links and its last node continues into the nodes after `nodoB` only when `nodoA` had no successor and `nodoB` had one; list B keeps its links except that the predecessor now points to `nodoA` |
| ListIntersection.RelinkedWalkA | p3.cpp:79-91 | after relinking, list A is a null-terminated list through its old nodes followed by the continuation taken from B |
| ListIntersection.RelinkedWalkB | p3.cpp:74-77 | after relinking, list B is a null-terminated list: its nodes before `nodoB`, then list A from `nodoA` on |
| ListIntersection.ConnectLists | p3.cpp:56-96 | when either value is missing nothing changes; otherwise the new `next` fields are exactly those of `Relinked`, no value changes, and both heads start null-terminated lists |
| ListIntersection.ConnectAt | p3.cpp:64-95 | the found case of connectLists: predecessor search, relinking, and the new lists |
| ListIntersection.FirstSharedDisjoint | p3.cpp:113-124 | lists without common nodes have no first shared node |
| ListIntersection.FirstSharedRelinked | p3.cpp:75-77 | after a relinking at a non-head node of B, the first node B shares with A is `nodoA`, at `nodoB`'s old position |
| ListIntersection.GetIntersectionNode | p3.cpp:100-125 | returns the first node of list B that also belongs to list A, or null when there is none (including when either list is empty) |
| ListIntersection.TableOfNodes | p3.cpp:104-111 | the table built from list A holds exactly A's nodes |
| ListIntersection.AddNode | p3.cpp:109 | storing one more node of A extends the stored nodes by exactly that node |
| ListIntersection.FirstInTable | p3.cpp:113-124 | the scan of list B stops at the first node the table holds |
| ListIntersection.ShareAtHead | p3.cpp:136-143 | when the value is in A, B's head becomes A's first node with the value and B walks the rest of A from there, so that node is the first shared one; otherwise B's head and nodes are unchanged and B shares nothing with A |
| ListIntersection.Prepare | p3.cpp:134-147 | after preparing, a shared node exists iff the value is in A and (B is empty or the value is in B); it is A's first node with the value |
| ListIntersection.TestIntersection | p3.cpp:127-177 | an intersection is found iff the expected value is not -1, is in A, and B is empty or holds it; the found node has the expected value; the verdict is "correct" exactly in those cases and for -1 |
| ListIntersection.IntersectionCases | p3.cpp:179-204 | case 1 finds 8, case 2 finds nothing, case 3 finds 3, case 4 finds nothing, case 5 finds 2, and every verdict is "correct" |

## Left out

- `std::hash` and the key type's hash: the hash is a parameter `hash: K -> nat` fixed at construction. For the string table of `bagOfWords` and the pointer table of `getIntersectionNode`, the caller passes it in.
- The fill factor: `maxFillFactor` is a `float` and `fillFactor()` a `double` quotient. The model tests `5 * usedBuckets > 4 * capacity` over integers. `0.8f` is 13421773 / 2^24 (0.800000011920929), and `FillTestMatchesFloat` proves that the two tests agree for every capacity below 2^24. A larger table could resize at a slightly lower fill than the source.
- ChainHashing.ChainHash.constructor: requires a positive capacity. For a negative capacity the source's `new Node*[capacity]()` (chainhash.h:73) throws `std::bad_array_new_length`. For zero, the arrays are empty and the first `% capacity` in `get`, `set`, `contains` or `remove` divides by zero. The model rules out both with the precondition.
- ChainHashing.ChainHash.Rehashing: does not model the overflow of `capacity * 2` in `int`. It also does not state the order of the nodes inside a rebuilt chain, only the bucket each node lands in.
- The `next` pointer of a hash-table node: each chain is a sequence of node values held in the bucket array, so a node's successor is its position in that sequence. Iterators are the rest of a chain, and `==`/`!=` compare positions within one chain. Aliasing between live iterators and the table is not modelled.
- Exceptions: `get` and `bucket_size` throw `std::out_of_range`, and `begin`/`end` throw on a bad index. The model returns them as `Err(KeyNotFound)` and `Err(IndexOutOfRange)`.
- The constructor's default argument `initialCapacity = 10` (chainhash.h:71): every caller in the model passes a capacity (13 in `bagOfWords`, 10 in `getIntersectionNode`), as the source's callers do.
- The destructor (`~ChainHash`) and every `delete`: Dafny memory is garbage-collected.
- Integer widths: `size_t`, `int` and the `int`/`size_t` comparison in `bagOfWords` are unbounded integers.
- Character classes: `tolower`, `isalnum` and `isspace` are the ASCII "C" locale versions. Non-ASCII bytes such as the UTF-8 of "á" count as neither alphanumeric nor space (in C++ passing a negative `char` to them is undefined).
- Strings are sequences of characters, not bytes; `stringstream` is modelled by its `>>` word splitting.
- Printing: `printList`, `printBagOfWords`, the messages of `testIntersection` and both `main` functions are not modelled as output. The verdict of `testIntersection` is its `correct` result, and the five cases of p3's `main` are `IntersectionCases`. p2's `main` only prints.
- Ghost paths: list operations in `p3.cpp` take the node sequence a list walks through as a ghost argument. A list with a cycle, which the source would loop on forever, is outside the model.
- ListIntersection.ConnectLists: requires the two lists to share no node, as `testIntersection` guarantees because it creates them separately. The source does not check this.
- ListIntersection.Prepare: requires disjoint lists for the same reason.
- Leaked nodes (the ones `testIntersection` never frees) are not modelled.
