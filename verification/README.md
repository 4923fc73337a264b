# Contact hash table — a Dafny model

This project models `HashTable` from `hash_table.py`. It is a fixed-size hash
table with separate chaining, mapping a contact's name to a `Contact` record
that holds a phone number. The model covers:

- the constructor, which makes `size` empty buckets;
- `hash_function`, the sum of `(i + 1) * ord(key[i])` reduced modulo `size`;
- `insert`, which walks the chain at the key's bucket, overwrites the number of
  a node with the same key, or links a new node after the last one (or makes
  it the head of an empty bucket);
- `search`, which walks the same chain and returns the matching record or
  "not found".

Each bucket's linked chain of `Node`s is a `seq<Node>` in chain order.
Following `next` is moving to the next element, and `prev.next = Node(...)` is
appending to the sequence. An empty sequence is a bucket whose head is `None`.
The table is an immutable value: `Insert` returns the new table. Python's
`None` result of `search` is `Option.None`.

Files:

- `wrappers.dfy`: the `Option` type.
- `hash_table.dfy` (module `HashTable`): the data model (`Contact`, `Node`,
  `Table`), the hash, the constructor, the chain walks, `Insert`, `Search`, and
  the table invariant `Valid`. `Valid` says every node sits in the bucket its
  key hashes to, no key repeats, and every record's name is its node's key.
- `hash_table_loops.dfy` (module `HashTableLoops`): the original's loops, a
  character loop for the hash and a cursor walk for insert and search. Each is
  proved to compute the functional definition.
- `hash_table_proofs.dfy` (module `HashTableProofs`): the invariant, the
  insert/search laws, and the entry count.
- `hash_table_map.dfy` (module `HashTableMap`): the table seen as a finite map
  from names to numbers. Here `Insert` is a map update, and any sequence of
  inserts yields the map of the last number inserted for each name.
- `demo.dfy` (module `Demo`): the demonstration run at the end of
  `hash_table.py`, stated as lemmas over a table of 10 buckets.

The constructor's `size` must be positive. The code does not check it: a size
of 0 makes `hash_function` divide by zero, and a negative size yields an empty
bucket list. So `size > 0` is a precondition of `New` and part of
`WellFormed`.

Python integers are unbounded and `ord` gives a code point, so the weighted sum
is modelled exactly with `int` and `c as int` on Unicode characters. The sum
is never negative, and for a positive divisor Python's `%` and Dafny's `%`
agree.

## Model

| member | source | states |
|---|---|---|
| HashTable.Hash | hash_table.py:46-54 | the weighted sum modulo `size` is always a bucket index in `[0, size)` |
| HashTableLoops.HashFunction | hash_table.py:51-54 | the character loop accumulating `(i + 1) * ord(ch)` computes the weighted-sum hash, lands in `[0, size)`, and gives 0 for the empty key |
| HashTableProofs.EmptyKeyHashesToZero | hash_table.py:51-54 | the empty key, a sum of no terms, hashes to bucket 0 whatever the size |
| HashTable.New | hash_table.py:42-44 | the constructor yields exactly `size` buckets, all empty; `size` defaults to 10 |
| HashTableProofs.NewIsValid | hash_table.py:42-44 | a new table satisfies the invariant, stores no keys and holds no entries |
| HashTable.IndexOf | hash_table.py:67-74 | the chain walk stops at the first node whose key equals the searched key; it finds nothing only when no node has that key |
| HashTable.SearchChain | hash_table.py:83-88 | the search walk returns the record of the first node with the key, and nothing when there is none |
| HashTable.InsertChain | hash_table.py:61-76 | insert into a chain: an absent key gets a new node `(key, Contact(key, number))` appended at the end (an empty bucket becomes a one-node chain); a present key has only its first node's number replaced |
| HashTable.Insert | hash_table.py:56-76 | `insert` keeps the bucket count and touches only the bucket at `hash(key)`; every other bucket is unchanged |
| HashTable.Search | hash_table.py:78-88 | a found record is held by a node with exactly that key in the key's bucket; not found means no node there has the key |
| HashTableLoops.SearchWalk | hash_table.py:78-88 | the cursor loop over the bucket's nodes returns what `Search` returns |
| HashTableLoops.InsertWalk | hash_table.py:56-76 | the head-or-walk-then-link procedure returns what `Insert` returns |
| HashTableProofs.InsertChainFacts | hash_table.py:61-76 | inserting into a chain adds exactly the key to its key set, grows it by one node exactly when the key was new, and keeps keys unique and names equal to keys |
| HashTableProofs.InsertExistingKeepsShape | hash_table.py:67-72 | updating a present key keeps chain length and key order, changes no other node, and changes only the number of the matching node |
| HashTableProofs.SearchChainAfterInsert | hash_table.py:56-88 | after inserting into a chain, the walk for that key finds a record with the new number; when names match keys that record is `Contact(key, number)` |
| HashTableProofs.SearchAppendOther | hash_table.py:76-88 | linking a node with a different key after the last does not change what the walk finds for a key |
| HashTableProofs.SearchReplaceOther | hash_table.py:70-88 | changing the number of a node with a different key does not change what the walk finds for a key |
| HashTableProofs.SearchChainOtherKey | hash_table.py:56-88 | inserting a key into a chain does not change what the walk finds for any other key |
| HashTableProofs.KeysInOwnBucket | hash_table.py:61-64 | in a valid table a key is stored if and only if it is in the chain of the bucket it hashes to |
| HashTableProofs.InsertKeepsPlaced | hash_table.py:61-76 | after `insert` every node still sits in the bucket its key hashes to |
| HashTableProofs.InsertKeys | hash_table.py:56-76 | `insert` adds exactly its key to the set of stored keys and removes none |
| HashTableProofs.InsertPreservesValid | hash_table.py:56-76 | `insert` keeps every node in its hashed bucket, keeps keys unique across the table, keeps each record's name equal to its key, and adds exactly its key to the stored keys |
| HashTableProofs.ValidKeysUnique | hash_table.py:61-72 | in a valid table no key is held by two nodes, whether in one bucket or in two |
| HashTableProofs.SearchFindsStoredKeys | hash_table.py:78-88 | in a valid table `search` finds a record if and only if the key is stored, and the record carries that name |
| HashTableProofs.InsertThenSearch | hash_table.py:56-88 | after `insert(k, n)`, `search(k)` finds a record with number `n`; in a valid table it is exactly `Contact(k, n)` |
| HashTableProofs.InsertKeepsOtherSearches | hash_table.py:56-88 | after `insert(k, n)`, `search(k')` for any `k' != k` returns what it did before, also when `k'` shares `k`'s bucket |
| HashTableProofs.InsertCount | hash_table.py:67-76 | an update leaves the entry count unchanged; a new key adds exactly one entry |
| HashTableProofs.ChainKeysCount | hash_table.py:67-76 | a chain without repeated keys has as many distinct keys as nodes |
| HashTableProofs.LastKeyIsNew | hash_table.py:67-76 | in a chain without repeated keys, the last node's key does not occur earlier in the chain |
| HashTableProofs.ValidCount | hash_table.py:56-76 | every valid table holds exactly one entry per stored key: its entry count is the number of distinct stored keys |
| HashTableMap.SearchIsLookup | hash_table.py:78-88 | a valid table answers every search as the name-to-number map it stands for |
| HashTableMap.InsertIsUpdate | hash_table.py:56-76 | `insert(k, n)` is the map update `k := n` |
| HashTableMap.InsertAllKeys | hash_table.py:56-76 | any sequence of inserts keeps the invariant and stores exactly the previously stored names plus the inserted ones |
| HashTableMap.InsertKeepsOneEntryPerKey | hash_table.py:67-76 | after an insert into a valid table, the entry count equals the number of distinct stored names |
| HashTableMap.InsertAllCount | hash_table.py:67-76 | after any sequence of inserts into a valid table, the entry count equals the number of distinct stored names |
| HashTableMap.InsertAllContents | hash_table.py:56-76 | any sequence of inserts yields the map of applying the same updates in order |
| HashTableMap.BuiltTable | hash_table.py:42-88 | a table built from empty by inserts is valid and holds one entry per distinct inserted name; a never-inserted name is not found; any other name finds the last number inserted for it |
| Demo.WeightedSumFromIsWeightedSum | hash_table.py:51-53 | running the character loop's accumulation from position `i` adds exactly the weighted-sum terms of positions `i` onwards |
| Demo.DemoHashes | hash_table.py:46-54 | in 10 buckets: Juan 9, Jose 5, Maria 8, Nataly 4, Gabriel 2, Naty 4, Diego 8 |
| Demo.AfterFirstContactsUnrolled | hash_table.py:116-120 | the five demonstration contacts are inserted in order |
| Demo.FirstContactsBuckets | hash_table.py:116-120 | after the first five inserts, buckets 4, 5 and 8 hold only Nataly, Jose and Maria |
| Demo.FirstContactsCount | hash_table.py:116-120 | the first five inserts give a valid table of five entries |
| Demo.DemoCollision | hash_table.py:125-131 | Nataly is found; Naty is linked after Nataly in bucket 4, and both stay searchable with their own numbers |
| Demo.DemoUpdateAndMiss | hash_table.py:133-137 | after the update, Jose finds the new number; Diego is not found |
| Demo.DemoCount | hash_table.py:129-135 | six distinct names give six entries, and the second insert of Jose leaves six |

## Left out

- `print_table` and `Contact.__str__`: console formatting only, with no effect on the table.
- The `__main__` demonstration prints its results. Only its sequence of calls is modelled, as lemmas in `Demo`.
- Reference aliasing: `search` returns the live `Contact` object, and the caller could mutate it. Here `Search` returns the record by value.
- Sizes `<= 0`: the code does not validate them and fails in `hash_function` or when indexing buckets. They are excluded by the precondition `size > 0` rather than modelled as an error.
- Strings with lone surrogate code points: Python strings may hold them, but Dafny's Unicode `char` cannot. Every other string hashes exactly as in Python.
- The design memo at the end of `hash_table.py` is prose and states no behaviour beyond what is modelled above.
