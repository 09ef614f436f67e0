# Two key-value maps: a chained hash table and a (mis-linked) binary search tree

This project models, in Dafny, the two map classes of the repository and
proves what they do:

- `MyHashMap` (lab8/hashmap/MyHashMap.java): a table of buckets, each an
  insertion-ordered list of key/value entries. A key lives in bucket
  `floorMod(hashCode(key), buckets.length)`. `put` overwrites in place or
  appends, counts and runs the grow check. `resize` doubles the table and
  re-places every entry. `remove(k)`, `remove(k, v)`, `clear` and `keySet`
  are modelled too. Modules `Buckets` (entries, buckets, scans, re-hashing)
  and `HashMaps` (the map and its operations).
- `BSTMap` (lab7/bstmap/BSTMap.java): a linked tree of nodes. Its `insert`
  executes `current.right = insert(current.left, ...)`. So every insertion
  walks the left spine, and a node whose key is at or below the new key has
  its right link pointed at its own left child (or at the new leaf). Left and
  right links then share one node, and an update made through one link is
  seen through the other.
  - The model keeps this behaviour. The node heap is an arena: node `i` is
    the record at position `i`, links are positions, and every link points
    to a later position. Module `BstArena` holds the heap, `searchKey`,
    `insert` and `addKeys`.
  - Module `BstShape` holds the shape invariant that makes `searchKey` find
    every reachable key despite the mis-linking.
  - Module `BstMaps` holds the map operations and the worked examples.

Modelling choices:

- A Java reference that may be null is an `Option` (`None` is null). Values
  are `Option<V>`, so `put(k, null)` stores `None`, and `get` answers `None`
  both for an absent key and for a key mapped to null, as in Java.
- `hashCode` is the map's `hash: K -> int` field. `Math.floorMod` with a
  positive divisor is Dafny's `%`.
- The load `count / buckets.length` is Java's truncating integer division
  (`HashMaps.JavaDiv`), compared as a real number with `maxLoad`.
- Exceptions are the `Err` side of a `Result`. This covers the unsupported
  `remove` of the tree and a constructor that cannot build a usable table.
- Every operation is a pure function from the old map to the new one.

Where the classes' own documentation and their code disagree, the model
follows the code:

- The comment on the two-argument constructor
  (lab8/hashmap/MyHashMap.java:49) says the load `# items / # buckets`
  should always be at most the load factor. `resize`
  (lab8/hashmap/MyHashMap.java:153) divides integers before comparing, so
  with 16 buckets and load factor 0.75 the 13th key gives a load of 0 and
  no growth. The table grows only when `count` reaches the table length, on
  the 16th key (`HashMaps.Overloaded`, `HashMaps.DefaultTableGrowsAtSixteenth`).
- The tree's `size()` is documented as the number of key-value mappings
  (lab7/bstmap/BSTMap.java:71). It returns the `size` field
  (lab7/bstmap/BSTMap.java:72-74), which nothing but the constructor writes,
  so `size()` is always 0 (`BstMaps.Run`, `BstMaps.SizeAlwaysZero`).
- `insert` (lab7/bstmap/BSTMap.java:83) stores the result of descending the
  left link into the right link. A parent's left and right links then share
  one node, and the old right subtree is dropped
  (`BstMaps.PutFiveSevenNine`, `BstMaps.PutFiveThreeSixOneFour`).

## Model

| member | source | states |
|---|---|---|
| `Buckets.FloorMod` | lab8/hashmap/MyHashMap.java:115-118 | the bucket index lies in `[0, n)` and differs from the hash by a multiple of `n` |
| `Buckets.EmptyTable` | lab8/hashmap/MyHashMap.java:97-103 | `createTable(n)` gives exactly `n` buckets, all empty |
| `Buckets.Find` | lab8/hashmap/MyHashMap.java:125-130 | the bucket scan stops at the first position holding the key (no earlier entry has it), and finds none exactly when no entry of the bucket has the key |
| `Buckets.BucketGet` | lab8/hashmap/MyHashMap.java:139-144 | the scan in `get` answers null when no entry of the bucket carries the key, and otherwise the value of the first entry that carries it |
| `Buckets.AddEntry` | lab8/hashmap/MyHashMap.java:158-159 | placing one entry during `resize` puts it into the bucket its key's hash selects, leaves every other bucket alone, and adds exactly that entry to the table's multiset |
| `Buckets.Rehash` | lab8/hashmap/MyHashMap.java:155-161 | the new table has the requested length and holds exactly the old entries, as a multiset |
| `Buckets.RehashFlat` | lab8/hashmap/MyHashMap.java:155-161 | visiting the old buckets one after another adds exactly the entries of the flattened table, in table order and bucket order, to a fresh table |
| `Buckets.RehashWellPlaced` | lab8/hashmap/MyHashMap.java:155-162 | after re-hashing, every entry sits in the bucket its hash selects for the new length, and no bucket holds a key twice |
| `HashMaps.JavaDiv` | lab8/hashmap/MyHashMap.java:153 | Java's `int` division truncates toward zero: the remainder `a - q * b` lies in `[0, b)` for a non-negative dividend and in `(-b, 0]` for a negative one |
| `HashMaps.New` | lab8/hashmap/MyHashMap.java:39-41 | the default map has 16 empty buckets, count 0, load factor 0.75, no keys, and satisfies the invariant |
| `HashMaps.NewWithLoad` | lab8/hashmap/MyHashMap.java:54-57 | fails with a negative-size error iff `initialSize < 0` and with a zero-length error iff it is 0; otherwise an empty valid table of `initialSize` buckets with the given load factor |
| `HashMaps.NewWithSize` | lab8/hashmap/MyHashMap.java:43-45 | succeeds iff `initialSize > 0`, giving an empty valid table of that length with load factor 0.75 |
| `HashMaps.Clear` | lab8/hashmap/MyHashMap.java:109-112 | afterwards count is 0 and the table has 16 empty buckets whatever its previous length; load factor and hash function are kept |
| `HashMaps.IndexOf` | lab8/hashmap/MyHashMap.java:115-118 | `getIndex` lies within the table |
| `HashMaps.ContainsKey` | lab8/hashmap/MyHashMap.java:123-131 | `containsKey(k)` holds exactly when some entry of bucket `getIndex(k)` carries `k` |
| `HashMaps.Get` | lab8/hashmap/MyHashMap.java:137-145 | `get(k)` is null when `containsKey(k)` fails, and otherwise the value of an entry of bucket `getIndex(k)` that carries `k` |
| `HashMaps.Size` | lab8/hashmap/MyHashMap.java:147-150 | under the invariant `size()` is the number of distinct keys stored |
| `HashMaps.KeySet` | lab8/hashmap/MyHashMap.java:191-199 | the result is exactly the keys across all buckets; under the invariant its cardinality is `size()` and `k` is in it iff `containsKey(k)` |
| `HashMaps.Resize` | lab8/hashmap/MyHashMap.java:152-164 | the table doubles iff the integer quotient `count / length` exceeds `maxLoad`, and otherwise keeps its length; the multiset of entries, the count and the load factor never change; on a valid map the result is valid and answers every `get` and `containsKey` as before; when the load before the latest entry was within a non-negative `maxLoad`, the load after the check is within it again, so one doubling always suffices |
| `HashMaps.RehashKeeps` | lab8/hashmap/MyHashMap.java:155-162 | re-hashing a valid map into any positive number of buckets keeps it valid and answers every `get` and `containsKey` as before |
| `HashMaps.Overloaded` | lab8/hashmap/MyHashMap.java:153-154 | for a load factor in `[0, 1)` the grow check fires exactly when `count >= buckets.length`; for any non-negative load factor it fires only when `count >= buckets.length` |
| `HashMaps.DefaultTableGrowsAtSixteenth` | lab8/hashmap/MyHashMap.java:182-186 | in a 16-bucket table with load factor 0.75, adding a new key grows the table to 32 exactly when it is the 16th key; the 13th key does not grow it |
| `HashMaps.Put` | lab8/hashmap/MyHashMap.java:172-188 | on a valid map: the result is valid, `get(k) == v` and `containsKey(k)`, every other key's `get` and `containsKey` are unchanged, `size()` grows by one iff `k` was absent, and an integer load within a non-negative `maxLoad` stays within it (one doubling always suffices); the table length is kept or doubled |
| `HashMaps.Overwrite` | lab8/hashmap/MyHashMap.java:175-177 | the in-place update gives the found position the new value and keeps the bucket's length, every key and every other entry |
| `HashMaps.Append` | lab8/hashmap/MyHashMap.java:183-184 | adding a new key's entry puts `(k, v)` into bucket `getIndex(k)`, leaves the other buckets, the table length, hash function and load factor alone, adds exactly that entry to the stored multiset and counts one more |
| `HashMaps.AppendValid` | lab8/hashmap/MyHashMap.java:183-184 | appending a new key's entry to its bucket keeps the invariant and adds exactly that entry to the stored multiset |
| `HashMaps.OverwriteKeeps` | lab8/hashmap/MyHashMap.java:174-181 | overwriting the value of the entry found for `k` keeps a valid map valid, answers `v` for `k`, and leaves every other key's answers alone |
| `HashMaps.AppendKeeps` | lab8/hashmap/MyHashMap.java:182-186 | appending an absent key's entry, counting it and resizing keeps a valid map valid, answers `v` for `k`, and leaves every other key's answers alone |
| `HashMaps.PutExisting` | lab8/hashmap/MyHashMap.java:172-181 | `put` on a present key replaces only that entry's value: count, table length, other buckets and all keys and positions are unchanged |
| `HashMaps.PutNew` | lab8/hashmap/MyHashMap.java:182-186 | `put` on a new key adds exactly one entry `(k, v)` to the stored multiset; when no resize happens the entry is appended to bucket `getIndex(k)` and nothing else changes |
| `HashMaps.LookupChar` | lab8/hashmap/MyHashMap.java:123-145 | under the invariant, `containsKey(k)` holds iff some stored entry anywhere carries `k`; `get(k)` returns that entry's value, and null when there is none |
| `HashMaps.SameEntriesSameLookups` | lab8/hashmap/MyHashMap.java:123-145 | two valid tables holding the same entries answer every `get` and `containsKey` alike, whatever their lengths |
| `HashMaps.Delete` | lab8/hashmap/MyHashMap.java:209-216 | the unlinking loop keeps the table length, hash function and load factor and changes nothing for an absent key; on a valid map the result is valid, `k` is gone, the count drops by one iff `k` was present, and every other key answers as before |
| `HashMaps.Remove` | lab8/hashmap/MyHashMap.java:206-219 | `remove(k)` returns the old `get(k)`; when it is null (absent or mapped to null) the map is unchanged; on a valid map a non-null answer means `k` is gone and the count dropped by one, the result is valid, and other keys answer as before |
| `HashMaps.RemoveIfMapped` | lab8/hashmap/MyHashMap.java:226-239 | `remove(k, v)` returns `get(k)`; a differing current value or an absent key changes nothing; on a valid map a matching present key is removed and the count dropped by one, the result is valid, and other keys answer as before |
| `HashMaps.UnlinkKeeps` | lab8/hashmap/MyHashMap.java:209-216 | cutting the found entry out of its bucket keeps a valid map valid, removes `k`, and leaves every other key's answers alone |
| `BstArena.Search` | lab7/bstmap/BSTMap.java:38-50 | a node found by `searchKey` is reachable from the starting node and carries the key; a null start finds nothing |
| `BstArena.Insert` | lab7/bstmap/BSTMap.java:76-86 | insertion creates exactly one node, the leaf `(k, v)`, keeps the heap acyclic, returns the node it was called on (or the new leaf for a null start), and leaves the old nodes as they were for a null start |
| `BstArena.InsertFrame` | lab7/bstmap/BSTMap.java:76-86 | insertion changes no key and no value, never changes a non-null left link, and changes no node off the left spine below its start |
| `BstArena.InsertRelinks` | lab7/bstmap/BSTMap.java:79-84 | on the node it is called on: a key greater than `k` gets `left := insert(left)` with its right link kept; otherwise `right := insert(left)` replaces the old right subtree, with the left link kept |
| `BstArena.InsertRelinksSpine` | lab7/bstmap/BSTMap.java:76-86 | every node of the left spine below the start is re-linked that way |
| `BstArena.InsertLinks` | lab7/bstmap/BSTMap.java:76-86 | every link after insertion is a link the same node had before, or a link to the new leaf |
| `BstArena.InsertKeepsLeftOrdered` | lab7/bstmap/BSTMap.java:79-81 | insertion keeps every left child's key below its parent's key |
| `BstArena.InsertFinds` | lab7/bstmap/BSTMap.java:76-86 | when no node of the left spine carries `k`, `searchKey` for `k` from the returned node finds the new leaf |
| `BstArena.NotFoundAvoids` | lab7/bstmap/BSTMap.java:38-50 | when `searchKey` fails for `k` in a left-ordered heap, no node on the left spine carries `k` |
| `BstArena.AddKeys` | lab7/bstmap/BSTMap.java:98-104 | `addKeys` adds to `s` exactly the keys of the nodes reachable from the start, a shared node counted once |
| `BstShape.SearchComplete` | lab7/bstmap/BSTMap.java:38-50 | in a heap of good shape, `searchKey` for the key of any reachable node finds a node |
| `BstShape.InsertReachWithin` | lab7/bstmap/BSTMap.java:76-86 | after insertion, the returned node reaches only nodes its start reached before, plus the new leaf |
| `BstShape.InsertKeepsGood` | lab7/bstmap/BSTMap.java:76-95 | inserting a key that `searchKey` does not find keeps every reachable node in good shape |
| `BstShape.LeftSearchFails` | lab7/bstmap/BSTMap.java:38-50 | when `searchKey` fails for `k` at a node of good shape, it also fails when started at that node's left child |
| `BstShape.InsertStepKeepsGood` | lab7/bstmap/BSTMap.java:76-86 | re-linking one node after the recursive `insert` keeps that node and everything below it in good shape |
| `BstMaps.Empty` | lab7/bstmap/BSTMap.java:25-28 | a new map is valid, has `size` 0 and no keys |
| `BstMaps.Clear` | lab7/bstmap/BSTMap.java:33-35 | afterwards the map is valid, has no keys, `containsKey` is false and `get` null for every key, and `size` is untouched |
| `BstMaps.ContainsKey` | lab7/bstmap/BSTMap.java:54-56 | `containsKey(k)` holds only for a key that `keySet()` contains |
| `BstMaps.Get` | lab7/bstmap/BSTMap.java:62-68 | `get(k)` is null unless `containsKey(k)`, and otherwise the value of a reachable node with key `k`; in a valid map it is the value of the one reachable node with key `k` |
| `BstMaps.SearchFindsUnique` | lab7/bstmap/BSTMap.java:38-50 | in a valid map `searchKey(root, k)` returns the one reachable node carrying `k` whenever there is one |
| `BstMaps.Put` | lab7/bstmap/BSTMap.java:90-95 | when `searchKey` finds `k`, nothing changes; otherwise exactly one leaf `(k, v)` is added and the root stays (or becomes the new leaf when the map was empty); `size` never changes. On a valid map the result is valid, `containsKey(k)` holds, a new key reads back `v`, `keySet()` gains `k` and nothing else (keys may be lost), and each node of the root's left spine is re-linked on the side `searchKey` takes for `k` |
| `BstMaps.NewKeyValid` | lab7/bstmap/BSTMap.java:76-95 | inserting a key `searchKey` does not find keeps the invariant (acyclic heap, left children smaller than parents, every reachable node of good shape, no key on two reachable nodes) and re-links each spine node on the side `searchKey` takes |
| `BstMaps.NewKeyUnique` | lab7/bstmap/BSTMap.java:76-95 | inserting a key `searchKey` does not find leaves no key on two reachable nodes, when none was before |
| `BstMaps.NewKeyFound` | lab7/bstmap/BSTMap.java:76-95 | after inserting a key `searchKey` did not find, `containsKey(k)` holds and `get(k) == v` |
| `BstMaps.NewKeyKeys` | lab7/bstmap/BSTMap.java:76-113 | after inserting a key, the reachable keys are the old ones (possibly fewer) plus `k` |
| `BstMaps.KeySet` | lab7/bstmap/BSTMap.java:109-113 | `keySet()` is the set of keys of all nodes reachable from the root |
| `BstMaps.Remove` | lab7/bstmap/BSTMap.java:119-121 | `remove(k)` always fails with an unsupported-operation error |
| `BstMaps.RemoveIfMapped` | lab7/bstmap/BSTMap.java:127-129 | `remove(k, v)` always fails with an unsupported-operation error |
| `BstMaps.ContainsKeyIffInKeySet` | lab7/bstmap/BSTMap.java:54-56 | in every valid map `containsKey(k)` holds iff `k` is in `keySet()`, although the structure is not a search tree |
| `BstMaps.Run` | lab7/bstmap/BSTMap.java:22-35 | any sequence of `put` and `clear` calls keeps the invariant and never changes `size()` |
| `BstMaps.Size` | lab7/bstmap/BSTMap.java:72-74 | `size()` answers the stored field, not a count of the reachable nodes; `put` and `clear` never change that field |
| `BstMaps.SizeAlwaysZero` | lab7/bstmap/BSTMap.java:72-74 | `size()` is 0 after any sequence of calls on a new map |
| `BstMaps.PutFiveSevenNine` | lab7/bstmap/BSTMap.java:82-84 | putting 5, 7, 9 into a new map leaves `containsKey(7)` false and `keySet() == {5, 9}` |
| `BstMaps.SevenIsLost` | lab7/bstmap/BSTMap.java:38-50 | in the heap left by putting 5, 7, 9, `searchKey(7)` fails and `addKeys` collects only 5 and 9 |
| `BstMaps.PutFiveThreeSixOneFour` | lab7/bstmap/BSTMap.java:76-95 | putting 5, 3, 6, 1, 4 into a new map leaves `get(6)` null and `keySet() == {1, 3, 4, 5}` |
| `BstMaps.SixIsLost` | lab7/bstmap/BSTMap.java:38-50 | in the heap left by putting 5, 3, 6, 1, 4, `get(6)` is null and `addKeys` collects 5, 3, 1, 4 |
| `BstMaps.PutTwiceKeepsFirst` | lab7/bstmap/BSTMap.java:90-95 | putting 5, 3 and then 5 again keeps the first value of 5 |

## Left out

- `iterator()` in both classes, and `printInOrder`/`inOrderTraversal` of the tree: iteration plumbing and console output.
- `hashCode`, `equals` and `compareTo` of the key type are calls into code this model cannot see. They become the `hash` field, Dafny equality, and the order of `int` keys.
- The tree compares keys with `==` (lab7/bstmap/BSTMap.java:41). `remove(k, v)` of the hash map compares values with `==` (lab8/hashmap/MyHashMap.java:228). Both are Java reference comparisons, modelled as value equality. In Java two equal but distinct key objects (a boxed `Integer` above 127, say) are not matched by `searchKey`: the search moves on to the right, so the key can be inserted twice. Likewise a value equal to the stored one but not identical to it does not trigger removal.
- HashMaps.NewWithLoad: an `initialSize` of 0 is reported as an error at construction. Java builds a zero-length table instead. On it `size()` answers 0, `keySet()` and `iterator()` find nothing, and `clear()` turns it into an ordinary empty 16-bucket map; only `put`, `get`, `containsKey` and `remove` throw `ArithmeticException` from `floorMod`, and only before a `clear()`. The model has no zero-length map, so none of these answers is modelled.
- HashMaps.NewWithSize: the same zero-size case, inherited from `NewWithLoad`: `new MyHashMap(0)` is an error here, while in Java it is a zero-length map with the behaviour just described.
- `float load` and the `double` load factor: `maxLoad` is a real number and the load is the exact integer quotient. Float rounding of that quotient matters only for counts beyond 2^24.
- Java `int` overflow of `count`, `buckets.length * 2` and array sizes: integers are unbounded.
- `createBucket` overridability and the `LinkedList` choice: a bucket is a sequence.
- Null keys: the hash map's class comment excludes them (and `getIndex` would throw on `hashCode`). The tree's first `put` into an empty tree compares nothing, so a null key is stored. A later `put`, `get` or `containsKey` throws `NullPointerException` when `searchKey` reaches `compareTo` with the null key on either side, unless it stops earlier at a node whose key is identical to the one looked for. No key here is null.
- BstMaps.Clear: the unreachable nodes are dropped from the heap, whereas Java keeps them until garbage collection. No operation can observe the difference.
- The `Map61B` interface is not part of this model.
- Thread safety: neither class claims it.
