# Ordered-set structures: van Emde Boas tree, treap, binary search trees, bit helpers

A Dafny model of the data-structure core of a multi-language collection of
algorithms, with proofs of what each structure promises.

- **van Emde Boas tree** (`JavaScript/van_emde_boas.js`). An ordered set of
  non-negative integers below a universe size u. The sizes come from the family
  2, 4, 16, 256, 65536, …; each is the square of the one before it.
  - A node caches its min and max. It has an optional summary node and
    high(u) cluster slots, each empty or holding a node of the next level
    down. The min is never stored in a cluster.
  - Nodes are values (`VanEmdeBoas.Tree`): an operation that updates a node in
    place returns the updated node.
  - `Valid` is the structural invariant. `Contents` is the set a node
    represents.
  - Queries are proved against `Contents`: membership, min, max, successor,
    predecessor.
  - Updates are proved to keep `Valid` and to change `Contents` by exactly
    one key.
  - Modules: `VebArith` (universe sizes, integer square root, high/low/index),
    `VebLayout` (how keys spread over summary and clusters), `VanEmdeBoas`
    (queries), `VebUpdates` (constructor, insert), `VebDelete` (delete),
    `VebClient` (what a caller sees: the duplicate-insert defect and the
    demonstration run).
- **Treap** (`Java/Treap.java`, `Python/treap.py`, `JavaScript/treap.js`). A
  binary search tree on keys that is max-heap ordered on priorities.
  - Module `Treaps` holds the node operations: search, both rotations,
    insert, delete and the three traversals.
  - Module `TreapObject` holds the `Treap` class. Its `root` field is replaced
    by each public method.
  - `TreapOps` holds split, merge and the list-building traversal helpers.
  - Priorities drawn at random become parameters.
- **C++ binary search tree** (`CPP/BST.cpp`).
  - Module `CppTree` holds the node operations: insert, a full-scan search,
    successor, and remove both as written and as intended.
  - Module `CppBst` holds the `Bst` class, which owns the root.
- **Go binary search tree** (`GoLang/BST.go`).
  - Module `GoBst` holds the value operations: search, insert and the four
    traversals.
  - Module `GoBstNodes` holds the heap node class. Its `insert` links a new
    leaf in place, and `levelOrder` runs the queue loop.
- **Ruby bit helpers** (`Ruby/utils.rb`), in module `BitUtils`: bit length,
  and rounding up to a power of two.

## Model

| member | source | states |
|---|---|---|
| Powers.Pow2Add | Ruby/utils.rb:15-25 | Powers of two multiply by adding exponents (2^(a+b) = 2^a·2^b); the shifts `1 << b` rely on this |
| Powers.Pow2Monotone | Ruby/utils.rb:15-25 | A larger exponent gives a strictly larger power of two |
| BitUtils.BitLength | Ruby/utils.rb:5-13 | The bit length is 0 exactly for 0; otherwise 2^(b-1) ≤ n < 2^b |
| BitUtils.BitAnd | Ruby/utils.rb:17 | Bitwise and on non-negative integers, bit by bit from the lowest; the result is at most each operand |
| BitUtils.BitAndSelf | Ruby/utils.rb:15-25 | n & n = n on the bitwise-and model |
| BitUtils.PowerOfTwoTest | Ruby/utils.rb:15-25 | For n ≥ 1, n & (n-1) is 0 exactly when n is a power of two (both directions) |
| BitUtils.PowerBetween | Ruby/utils.rb:15-25 | The only power of two in [2^(b-1), 2^b) is 2^(b-1), so a power of two is returned unchanged |
| BitUtils.NearestPow2 | Ruby/utils.rb:15-25 | Intended nearest_pow_2: 0 for 0; otherwise the least power of two ≥ n, so n ≤ r < 2n; n itself when n is a power of two |
| BitUtils.NearestPow2AsWritten | Ruby/utils.rb:15-25 | As written, every call ends in NoMethodError, because `zero` is not an Integer method |
| BitUtils.NearestPow2AsWrittenRaises | Ruby/utils.rb:15-25 | For n = 5 the intended answer is 8, and the as-written method does not return it |
| VebArith.Universe | JavaScript/van_emde_boas.js:12-22 | Every universe size is at least 2 |
| VebArith.UniverseSquares | JavaScript/van_emde_boas.js:20-22 | Each universe size is the square of the previous one, and strictly larger |
| VebArith.ISqrtBounds | JavaScript/van_emde_boas.js:40-50 | The integer square root r satisfies r² ≤ n < (r+1)²; it replaces Math.sqrt |
| VebArith.ISqrtOfSquare | JavaScript/van_emde_boas.js:40-50 | The root of a perfect square s² is s, so floor and ceil of sqrt(u) agree on every universe |
| VebArith.UniverseRoot | JavaScript/van_emde_boas.js:40-50 | sqrt(Universe(k)) is exactly Universe(k-1), the cluster universe |
| VebArith.High | JavaScript/van_emde_boas.js:40-42 | high(x) is x divided by sqrt(u), rounded down, with the exact integer root in place of Math.sqrt; its round trip with low and index is VebArith.SplitRoundTrip |
| VebArith.Low | JavaScript/van_emde_boas.js:44-46 | low(x) is the remainder of x by sqrt(u), so it is below sqrt(u) |
| VebArith.Index | JavaScript/van_emde_boas.js:48-50 | index(h, l) is h·sqrt(u) + l; VebArith.IndexRoundTrip and VebArith.IndexOrder state what it promises |
| VebArith.SplitRoundTrip | JavaScript/van_emde_boas.js:40-50 | For x < u: high(x) and low(x) are below the cluster universe, and index(high(x), low(x)) = x |
| VebArith.IndexRoundTrip | JavaScript/van_emde_boas.js:40-50 | For h, l below the cluster universe: index(h, l) < u, high(index(h, l)) = h and low(index(h, l)) = l |
| VebArith.IndexOrder | JavaScript/van_emde_boas.js:48-50 | index orders keys lexicographically by (cluster, offset), in both directions |
| VebArith.SplitJoin | JavaScript/van_emde_boas.js:40-50 | index(high(x), low(x)) = x for every x and every u > 0 |
| VebArith.HighOfUniverse | JavaScript/van_emde_boas.js:24-29 | high(u) = Universe(k-1): the constructor creates one slot per cluster |
| VebArith.Grow | JavaScript/van_emde_boas.js:20-22 | The squaring loop ends at a size at least the start and at least the request |
| VebArith.GrowLevel | JavaScript/van_emde_boas.js:20-22 | Squaring from Universe(j) stops at the least universe of the family, from j on, that holds the request |
| VebArith.RoundUp | JavaScript/van_emde_boas.js:17-22 | The constructor's size: squaring from 2 until the request fits; VebArith.RoundUpLevel states which size it is |
| VebArith.RoundUpLevel | JavaScript/van_emde_boas.js:17-22 | The chosen size is the least of 2, 4, 16, … that is ≥ the request; it is 2 exactly when the request is ≤ 2 |
| VebLayout.InsertLayout | JavaScript/van_emde_boas.js:86-109 | Putting the displaced key into its cluster and the cluster number into the summary keeps the cluster/summary layout |
| VebLayout.DeleteLayout | JavaScript/van_emde_boas.js:130-173 | Removing a key's offset from its cluster (with a new min, when the min is deleted) keeps the layout |
| VebLayout.SuccessorInCluster | JavaScript/van_emde_boas.js:203-206 | A successor of low(x) inside x's cluster is, re-indexed, the successor of x in the whole set |
| VebLayout.SuccessorInLaterCluster | JavaScript/van_emde_boas.js:207-221 | When x's cluster has nothing above low(x), the least key of the next non-empty cluster is x's successor |
| VebLayout.PredecessorInCluster | JavaScript/van_emde_boas.js:248-254 | A predecessor of low(x) inside x's cluster is, re-indexed, the predecessor of x |
| VebLayout.PredecessorIsMin | JavaScript/van_emde_boas.js:263-270 | When no earlier cluster is non-empty, the predecessor is the min if it is below x, and none otherwise |
| VanEmdeBoas.SummaryLayout | JavaScript/van_emde_boas.js:100-104 | The summary holds exactly the numbers of the non-empty clusters |
| VanEmdeBoas.MinMaxHeld | JavaScript/van_emde_boas.js:32-38 | A present min or max is an element of the set |
| VanEmdeBoas.GetMin | JavaScript/van_emde_boas.js:32-34 | getMin is none exactly for the empty set; otherwise it is an element at most every element |
| VanEmdeBoas.GetMax | JavaScript/van_emde_boas.js:36-38 | getMax is none exactly for the empty set; otherwise it is an element at least every element |
| VanEmdeBoas.IsMember | JavaScript/van_emde_boas.js:52-66 | A key equal to the cached min or max is reported a member |
| VanEmdeBoas.IsMemberCorrect | JavaScript/van_emde_boas.js:52-66 | On a valid tree, isMember(x) holds exactly when x is in the set |
| VanEmdeBoas.MembershipInCluster | JavaScript/van_emde_boas.js:59-64 | A key other than the min is in the set exactly when low(x) is in cluster high(x) |
| VanEmdeBoas.Successor | JavaScript/van_emde_boas.js:177-223 | For x < u, successor(x) is the least element above x, or none when there is none |
| VanEmdeBoas.SuccessorWithinCluster | JavaScript/van_emde_boas.js:203-206 | The branch that searches x's own cluster returns the least element above x |
| VanEmdeBoas.SuccessorPastCluster | JavaScript/van_emde_boas.js:207-221 | The branch that asks the summary for the next cluster returns the least element above x |
| VanEmdeBoas.Predecessor | JavaScript/van_emde_boas.js:226-277 | For x < u, predecessor(x) is the greatest element below x, or none when there is none |
| VanEmdeBoas.PredecessorWithinCluster | JavaScript/van_emde_boas.js:248-254 | The branch that searches x's own cluster returns the greatest element below x |
| VanEmdeBoas.PredecessorBeforeCluster | JavaScript/van_emde_boas.js:255-275 | The branch that asks the summary for an earlier cluster, falling back to the min, returns the greatest element below x |
| VanEmdeBoas.PredecessorFromMin | JavaScript/van_emde_boas.js:263-270 | With no earlier non-empty cluster, the answer is the min when it is below x, and none otherwise |
| VebUpdates.EmptyTree | JavaScript/van_emde_boas.js:12-30 | The node the constructor builds: the rounded-up size, no min, max or summary, and high(u) empty cluster slots above the base size; VebUpdates.EmptyTreeValid states it is valid and empty |
| VebUpdates.EmptyTreeValid | JavaScript/van_emde_boas.js:12-30 | A new tree is valid and empty, and its size is the least universe of the family ≥ the request |
| VebUpdates.NewTree | JavaScript/van_emde_boas.js:12-30 | The constructor's two loops build that empty, valid tree, whose universe holds the requested size |
| VebUpdates.Create | JavaScript/van_emde_boas.js:12-14 | A negative size fails, and only a negative size, with "u should be greater then 0"; otherwise the new tree is valid and empty |
| VebUpdates.EmptyInsert | JavaScript/van_emde_boas.js:69-71 | Inserting into an empty node makes x its min and its max; the node stays valid and holds {x} |
| VebUpdates.Insert | JavaScript/van_emde_boas.js:73-115 | For x < u not yet present, insert keeps the tree valid and adds exactly x |
| VebUpdates.InsertAbove | JavaScript/van_emde_boas.js:76-114 | The branch for a non-empty node above the base size adds exactly x and keeps validity |
| VebUpdates.ClusterInsert | JavaScript/van_emde_boas.js:93-108 | Inserting an absent offset into a cluster slot (created empty when missing) gives a valid cluster holding one offset more |
| VebUpdates.SummaryInsert | JavaScript/van_emde_boas.js:97-104 | Recording a cluster number in the summary (created empty when missing) gives a valid summary holding that number too |
| VebUpdates.InsertExtremes | JavaScript/van_emde_boas.js:82-113 | Swapping a smaller key into min and raising max keeps min and max the extremes of the enlarged set |
| VebUpdates.Slot | JavaScript/van_emde_boas.js:93-94 | The node used for cluster c is valid, of the cluster universe, and holds that cluster's offsets |
| VebUpdates.SummaryNode | JavaScript/van_emde_boas.js:97-98 | The summary node used is valid, of the cluster universe, and holds the non-empty cluster numbers |
| VebDelete.Delete | JavaScript/van_emde_boas.js:117-174 | For a present key, delete keeps the tree valid and removes exactly that key |
| VebDelete.DeleteAbove | JavaScript/van_emde_boas.js:130-173 | The branch for a node with two or more keys above the base size removes exactly x and keeps validity |
| VebDelete.SecondKey | JavaScript/van_emde_boas.js:139-145 | When the min is deleted, the key read from the first non-empty cluster is the least key other than the min |
| VebDelete.ClusterDelete | JavaScript/van_emde_boas.js:150 | Deleting a present offset from its cluster leaves a valid cluster without that offset |
| VebDelete.SummaryDelete | JavaScript/van_emde_boas.js:152-154 | Removing an emptied cluster's number from the summary leaves a valid summary without it |
| VebDelete.MaxAfterDelete | JavaScript/van_emde_boas.js:156-172 | delete's new max: the old max unless x was it; then the min when the summary is empty, else the max of the last non-empty cluster, re-indexed; VebDelete.NewMaxExtremes proves it is the greatest remaining key |
| VebDelete.NewMaxExtremes | JavaScript/van_emde_boas.js:156-172 | The max recomputed after a delete, from the last non-empty cluster or the min, is the greatest remaining key |
| VebDelete.DeleteAboveValid | JavaScript/van_emde_boas.js:130-173 | The rebuilt node after a delete above the base size is valid and holds the old set minus x |
| VebClient.DuplicateInsert | JavaScript/van_emde_boas.js:73-115 | In a universe of 4, inserting 1 twice also puts 1 into cluster 0, so clearing min and max (delete's first branch) leaves isMember(1) true |
| VebClient.InsertChecked | JavaScript/van_emde_boas.js:73-115 | The membership-guarded insert keeps validity, adds x, and leaves a tree already holding x unchanged |
| VebClient.InsertCheckedIdempotent | JavaScript/van_emde_boas.js:73-115 | Inserting the same key twice with the guarded insert equals inserting it once |
| VebClient.DeleteAsWritten | JavaScript/van_emde_boas.js:117-121 | delete as written without a presence check: a node holding one key is cleared whatever x is; for a present key it is delete |
| VebClient.AbsentDeleteClears | JavaScript/van_emde_boas.js:117-121 | new VanEmdeBoas(16), insert(3), then delete(5) as written clears the tree, so isMember(3) turns from true to false |
| VebClient.DeleteChecked | JavaScript/van_emde_boas.js:117-174 | The membership-guarded delete keeps validity, removes x, and leaves a tree without x unchanged |
| VebClient.InsertThenDelete | JavaScript/van_emde_boas.js:73-174 | Deleting a key just inserted gives back the keys held before |
| VebClient.Demo | JavaScript/van_emde_boas.js:280-298 | The demonstration prints true, false, false, true, true |
| VebClient.DemoTree | JavaScript/van_emde_boas.js:281-285 | new VanEmdeBoas(1000) followed by inserting 3, 5 and 10 gives a valid tree holding {3, 5, 10} |
| VebClient.DemoMembers | JavaScript/van_emde_boas.js:287-288 | On {3, 5, 10}, isMember(3) is true and isMember(4) is false |
| VebClient.DemoQueries | JavaScript/van_emde_boas.js:290-295 | After deleting 3, isMember(3) is false, successor(5) is 10 and predecessor(10) is 5 |
| VebClient.NeighbourAnswers | JavaScript/van_emde_boas.js:177-277 | In a set {a, b} with a < b, successor(a) = b and predecessor(b) = a |
| Treaps.BoundsMean | Java/Treap.java:62-78 | The structural key bounds say what they promise about every stored key |
| Treaps.Search | Java/Treap.java:27-40 | A node found holds the key, and its keys are among the tree's; an absent key gives the empty tree (null; False in Python/treap.py:19-37) |
| Treaps.SearchFinds | JavaScript/treap.js:22-35 | On an ordered tree, search finds a node exactly when the key is stored |
| Treaps.LRotate | Java/Treap.java:42-50 | lrotate: the right child rises and the old root takes its left subtree; the lemmas below state what it keeps |
| Treaps.RRotate | Java/Treap.java:52-60 | rrotate: the left child rises and the old root takes its right subtree; the lemmas below state what it keeps |
| Treaps.RotatedSmaller | Java/Treap.java:42-60 | After either rotation, the subtree holding the old root is smaller than the whole, so delete's descent terminates |
| Treaps.LRotateInOrder | Java/Treap.java:42-50 | lrotate keeps the in-order sequence of keys |
| Treaps.RRotateInOrder | Java/Treap.java:52-60 | rrotate keeps the in-order sequence of keys |
| Treaps.LRotateKeys | Python/treap.py:39-47 | lrotate keeps the multiset of keys |
| Treaps.RRotateKeys | Python/treap.py:48-55 | rrotate keeps the multiset of keys |
| Treaps.LRotateOrdered | JavaScript/treap.js:37-45 | lrotate keeps search-tree order |
| Treaps.RRotateOrdered | JavaScript/treap.js:47-55 | rrotate keeps search-tree order |
| Treaps.Insert | Java/Treap.java:62-78 | Insert always returns a node |
| Treaps.Restore | Java/Treap.java:73-77 | The check after a recursive insert returns a node |
| Treaps.RestoreBounds | Python/treap.py:57-77 | The check after insert keeps every key and priority bound the node meets |
| Treaps.RestoreKeys | Python/treap.py:57-77 | The check after insert keeps the multiset of keys |
| Treaps.RestoreOrdered | Python/treap.py:57-77 | The check after insert keeps search-tree order |
| Treaps.InsertKeys | Java/Treap.java:62-78 | Insert adds exactly one occurrence of the key, even when it is already present |
| Treaps.InsertBounds | JavaScript/treap.js:57-73 | The tree after insert meets a bound exactly when the old tree and the new key (or priority) do |
| Treaps.InsertOrdered | Java/Treap.java:62-78 | Insert keeps search-tree order |
| Treaps.InsertOutranks | Java/Treap.java:62-78 | A priority above every priority of a heap rises to the root |
| Treaps.InsertHeap | Java/Treap.java:62-78 | Insert keeps max-heap order on priorities |
| Treaps.InsertTreap | Python/treap.py:57-77 | Insert adds the key and keeps a treap a treap |
| Treaps.Delete | Java/Treap.java:80-116 | delete: descend by key; at the key, a missing child gives the other, else the child of higher priority is rotated up and the delete continues below it; the lemmas below state what it keeps |
| Treaps.DeleteAbsent | Java/Treap.java:80-116 | Deleting a key that is not stored leaves the tree unchanged |
| Treaps.DeleteKeys | Java/Treap.java:80-116 | On an ordered tree holding the key, delete removes exactly one occurrence |
| Treaps.DescendDeleteKeys | Java/Treap.java:87-90 | The descent step removes one occurrence when the child on the search side does |
| Treaps.LRotateDeleteKeys | Java/Treap.java:105-108 | The rotate-left-then-continue step removes one occurrence |
| Treaps.RRotateDeleteKeys | Java/Treap.java:109-112 | The rotate-right-then-continue step removes one occurrence |
| Treaps.RotateBounds | JavaScript/treap.js:37-55 | Both rotations keep every bound the tree meets |
| Treaps.DeleteBounds | JavaScript/treap.js:75-111 | Delete keeps every bound the tree meets |
| Treaps.DeleteOrdered | Python/treap.py:79-111 | Delete keeps search-tree order |
| Treaps.DeleteRootBounds | Python/treap.py:79-111 | Deleting the root key keeps a priority bound met by both children |
| Treaps.DeleteHeap | Java/Treap.java:80-116 | Delete keeps max-heap order: the child rotated up outranks everything left below it |
| Treaps.DeleteTreap | JavaScript/treap.js:75-111 | On a treap, delete removes one occurrence of the key, if there is one, and the result is a treap |
| Treaps.InOrder | Java/Treap.java:172-184 | In-order lists the left keys, the key, the right keys; Treaps.InOrderKeys and Treaps.InOrderSorted state what it promises |
| Treaps.PreOrder | Python/treap.py:192-202 | Pre-order lists the key, the left keys, the right keys; Treaps.PreOrderKeys states what it promises |
| Treaps.PostOrder | Python/treap.py:180-190 | Post-order lists the left keys, the right keys, the key; Treaps.PostOrderKeys states what it promises |
| Treaps.SortedJoin | Java/Treap.java:172-184 | Two sorted lists with a middle key between them join into a sorted list |
| Treaps.InOrderKeys | Java/Treap.java:172-184 | The in-order list holds every key once per occurrence |
| Treaps.PreOrderKeys | Python/treap.py:192-202 | The pre-order list holds every key once per occurrence |
| Treaps.PostOrderKeys | Python/treap.py:180-190 | The post-order list holds every key once per occurrence |
| Treaps.InOrderSorted | JavaScript/treap.js:173-185 | An ordered tree lists its keys in non-decreasing order |
| TreapOps.SplitPartsKeys | Java/Treap.java:125-161 | The two parts of a split together hold exactly the keys of the tree |
| TreapOps.SplitPartsRoots | Java/Treap.java:156-160 | The first part's root is below the split key and the second part's root is at least it; this decides the labelling |
| TreapOps.SplitPartsSides | Python/treap.py:119-160 | In an ordered tree, the first part holds only keys below the split key and the second only keys at least it |
| TreapOps.SplitPartsBounds | JavaScript/treap.js:120-164 | Both parts meet every bound the tree meets |
| TreapOps.SplitPartsTreap | JavaScript/treap.js:120-164 | Splitting a treap gives two treaps |
| TreapOps.SplitTree | Java/Treap.java:125-161 | The pointer-cutting loop and its labelling give the parts below and at least the key, except that an all-below treap comes back as the right part |
| TreapOps.SplitChecked | Python/treap.py:119-160 | Intended split: the parts hold every key, below and at least the key, and both are treaps |
| TreapOps.SplitAllBelow | JavaScript/treap.js:120-164 | Running split as written on the treap holding only 1, at 2, returns an empty left part and the whole treap as the right part, though 1 belongs on the left |
| TreapOps.InsertAll | Java/Treap.java:163-170 | The merge loop's effect: each key of the list inserted in turn with its priority; TreapOps.InsertAllKeys and TreapOps.InsertAllTreap state what it promises |
| TreapOps.InsertAllKeys | Java/Treap.java:163-170 | Inserting a list of keys adds each of them once |
| TreapOps.InsertAllTreap | Python/treap.py:162-166 | Inserting a list of keys into a treap gives a treap |
| TreapOps.MergeKeys | JavaScript/treap.js:166-171 | The merge loop inserts the other treap's keys one by one, in list order |
| TreapOps.LastStep | Java/Treap.java:163-170 | A list's elements are those of its prefix plus its last element |
| TreapOps.InOrderInto | Java/Treap.java:172-184 | The in-order helper appends exactly the in-order keys to its list |
| TreapOps.PreOrderInto | JavaScript/treap.js:201-214 | The pre-order helper appends exactly the pre-order keys to its list |
| TreapOps.PostOrderInto | JavaScript/treap.js:187-199 | The post-order helper appends exactly the post-order keys to its list |
| TreapObject.Treap.constructor | Java/Treap.java:23-25 | A new treap is empty |
| TreapObject.Treap.Search | Python/treap.py:19-37 | A node found holds the key; on a treap, nothing is found exactly when the key is absent |
| TreapObject.Treap.Insert | Java/Treap.java:62-78 | The root is replaced by the insert result, which holds one more occurrence of the key; a treap stays a treap |
| TreapObject.Treap.Delete | Java/Treap.java:80-116 | The root is replaced by the delete result; a treap stays a treap and loses one occurrence of the key |
| TreapObject.Treap.Split | Java/Treap.java:125-161 | This treap is one of the two returned parts and the other is new; the parts are labelled as split as written labels them |
| TreapObject.Treap.Merge | Java/Treap.java:163-170 | This treap gains every key of the other, one by one in in-order; a treap stays a treap |
| TreapObject.Treap.InOrder | Java/Treap.java:172-184 | The in-order list holds every key and is non-decreasing on a treap |
| TreapObject.Treap.PreOrder | Python/treap.py:192-202 | The pre-order list holds every key |
| TreapObject.Treap.PostOrder | Python/treap.py:180-190 | The post-order list holds every key |
| CppTree.BoundsMean | CPP/BST.cpp:22-30 | The structural bounds say what they promise about every stored datum |
| CppTree.Insert | CPP/BST.cpp:22-30 | Insert returns a node and keeps the root's datum |
| CppTree.InsertElems | CPP/BST.cpp:22-30 | Insert always adds exactly one node holding the datum, present or not |
| CppTree.InsertBounds | CPP/BST.cpp:22-30 | Inserting a datum within a bound keeps the bound |
| CppTree.InsertOrdered | CPP/BST.cpp:22-30 | Insert keeps the order: at most the datum on the left, above it on the right |
| CppTree.Search | CPP/BST.cpp:32-38 | The full scan finds a node exactly when the datum is held anywhere, ordered or not; a node found holds the datum |
| CppTree.Leftmost | CPP/BST.cpp:40-46 | Always going left ends at a node of the tree with no left child |
| CppTree.LeftmostAtLeast | CPP/BST.cpp:40-46 | In a loosely ordered tree every datum is at least the leftmost one |
| CppTree.LeftmostLeast | CPP/BST.cpp:40-46 | In a loosely ordered tree, the leftmost node holds the least datum |
| CppTree.Successor | CPP/BST.cpp:40-46 | successor's loop stops at the leftmost node of the right subtree, which holds the least datum there |
| CppTree.RemoveInPlace | CPP/BST.cpp:48-64 | As written: undefined exactly when some node the call visits holds a datum other than the one being removed; a node with a missing child is left as is and its other child returned, so one occurrence goes and order is kept; a node with two children gets its successor's datum in place and only what removing that datum from the right returns comes back, which loses the node's datum and left subtree |
| CppTree.TwoChildrenLost | CPP/BST.cpp:48-64 | On 2 with children 1 and 3, remove(2) as written rewrites the root to 3 and returns the empty tree, while the intended remove gives 3 over 1; remove(3) is undefined as written, and so is remove(2) on 2 with children 1 and 5 over 4 |
| CppTree.RemoveIntended | CPP/BST.cpp:48-64 | remove as evidently intended: every branch returns the new subtree root, the descent reattaches the changed child, two children take the successor's datum; CppTree.RemoveIntendedElems and CppTree.RemoveIntendedOrdered state what it promises |
| CppTree.RemoveIntendedBounds | CPP/BST.cpp:48-64 | The intended remove keeps every bound the tree meets |
| CppTree.RemoveIntendedElems | CPP/BST.cpp:48-64 | On a loosely ordered tree the intended remove takes out exactly one occurrence of the datum, if there is one |
| CppTree.RemoveIntendedOrdered | CPP/BST.cpp:48-64 | The intended remove keeps the loose order (left at most, right at least the datum) |
| CppTree.OrderedLoose | CPP/BST.cpp:22-30 | The order insert builds is a loose order |
| CppTree.InsertLooseOrdered | CPP/BST.cpp:22-30 | Insert keeps the loose order too, so insert and the intended remove can be mixed |
| CppBst.Bst.constructor | CPP/BST.cpp:69-71 | A new tree is empty |
| CppBst.Bst.Insert | CPP/BST.cpp:73-75 | The datum goes in once more, the root keeps its datum, and the order, strict or loose, is kept |
| CppBst.Bst.Search | CPP/BST.cpp:81-83 | A node is found exactly when the datum is held, and it holds the datum |
| CppBst.Bst.Remove | CPP/BST.cpp:77-79 | As written: the private remove's result is dropped, so the root stays what the private remove left in place: unchanged when it misses a child, its datum replaced by its successor's when it has two |
| CppBst.Bst.RemoveChecked | CPP/BST.cpp:48-64 | Intended remove: the result becomes the root, with one occurrence fewer and the loose order kept |
| CppBst.RemoveKeepsRoot | CPP/BST.cpp:77-79 | On a tree holding only 2, remove(2) as written keeps 2, while the intended remove takes it out |
| CppBst.Driver | CPP/BST.cpp:87-101 | main with the intended remove ends with 2 over 1 and 4, the tree its comment draws; as written its remove(3) is undefined |
| GoBst.BoundsMean | GoLang/BST.go:21-36 | The structural strict bounds say what they promise about every stored datum |
| GoBst.Search | GoLang/BST.go:8-19 | A node found holds the datum, and its data are among the tree's |
| GoBst.SearchFinds | GoLang/BST.go:8-19 | On an ordered tree, search finds a node exactly when the datum is held |
| GoBst.Insert | GoLang/BST.go:21-36 | Insert returns a node and keeps the root's datum |
| GoBst.InsertPresent | GoLang/BST.go:21-36 | Inserting a datum already held leaves an ordered tree unchanged |
| GoBst.InsertAbsent | GoLang/BST.go:21-36 | Inserting a datum not held adds exactly one occurrence |
| GoBst.InsertBounds | GoLang/BST.go:21-36 | Inserting a datum within a strict bound keeps the bound |
| GoBst.InsertOrdered | GoLang/BST.go:21-36 | Insert keeps strict search-tree order |
| GoBst.AddAllConcat | GoLang/BST.go:21-36 | Inserting a + b is inserting a, then b |
| GoBst.AddAllLeft | GoLang/BST.go:21-36 | Data all below a node's datum go into its left subtree only |
| GoBst.AddAllRight | GoLang/BST.go:21-36 | Data all above a node's datum go into its right subtree only |
| GoBst.InOrder | GoLang/BST.go:38-47 | inorder lists the left data, the datum, the right data; GoBst.InOrderElems and GoBst.InOrderIncreasing state what it promises |
| GoBst.PreOrderAsWritten | GoLang/BST.go:49-58 | preorder as written: the datum, then inorder of the left and of the right subtree; GoBst.PreOrderAsWrittenLoses shows it differs from preorder |
| GoBst.PostOrderAsWritten | GoLang/BST.go:60-69 | postorder as written: inorder of the left and of the right subtree, then the datum; GoBst.PostOrderAsWrittenLoses shows it differs from postorder |
| GoBst.InOrderElems | GoLang/BST.go:38-47 | inorder lists every datum once per occurrence |
| GoBst.PreOrderElems | GoLang/BST.go:49-58 | Intended preorder lists every datum once per occurrence |
| GoBst.PostOrderElems | GoLang/BST.go:60-69 | Intended postorder lists every datum once per occurrence |
| GoBst.ListBounds | GoLang/BST.go:38-69 | A list holding a tree's data meets the tree's bounds element by element |
| GoBst.InOrderIncreasing | GoLang/BST.go:38-47 | On an ordered tree, inorder is strictly increasing |
| GoBst.RebuildNode | GoLang/BST.go:49-58 | Inserting a node's datum, then its left list, then its right list rebuilds the node |
| GoBst.RebuildNodeRightFirst | GoLang/BST.go:60-69 | Inserting the datum, then the right list, then the left list also rebuilds the node |
| GoBst.PreOrderRebuilds | GoLang/BST.go:49-58 | Inserting an ordered tree's intended preorder into an empty tree rebuilds the same tree |
| GoBst.ReverseConcat | GoLang/BST.go:60-69 | Reversing a + b gives reverse(b) + reverse(a) |
| GoBst.ReverseElems | GoLang/BST.go:60-69 | Reversing keeps the multiset of a list |
| GoBst.PostOrderReversed | GoLang/BST.go:60-69 | A node's reversed postorder is its datum, then its reversed right list, then its reversed left list |
| GoBst.PostOrderRebuilds | GoLang/BST.go:60-69 | Inserting an ordered tree's reversed intended postorder rebuilds the same tree |
| GoBst.PreOrderAsWrittenLoses | GoLang/BST.go:49-58 | On an ordered four-node sample, preorder as written gives [1, 2, 3, 4], which differs from preorder and does not rebuild the tree |
| GoBst.PostOrderAsWrittenLoses | GoLang/BST.go:60-69 | On the same sample, postorder as written gives [2, 3, 4, 1], which differs from postorder and whose reverse does not rebuild the tree |
| GoBst.SizeSumConcat | GoLang/BST.go:71-83 | The size and data of a queue of trees add up over concatenation |
| GoBst.ChildrenSmaller | GoLang/BST.go:71-83 | Replacing a level by its children lowers the queued size by one per present node, so the loop ends |
| GoBst.ChildrenElems | GoLang/BST.go:71-83 | A level's data plus its children's data are the level's data |
| GoBst.QueueNode | GoLang/BST.go:73-80 | One turn of the loop on a present node outputs its datum and queues its two children |
| GoBst.QueueSplit | GoLang/BST.go:71-83 | The loop outputs a whole level's data before any of the next level's |
| GoBst.QueueEmpty | GoLang/BST.go:71-83 | A queue of empty trees outputs nothing |
| GoBst.QueueLevels | GoLang/BST.go:71-83 | The queue loop outputs exactly breadth-first, level-by-level order |
| GoBst.LevelsElems | GoLang/BST.go:71-83 | Breadth-first order lists every datum once per occurrence |
| GoBst.EmptyForest | GoLang/BST.go:71-83 | A queue of empty trees holds no data |
| GoBstNodes.BstNode.constructor | GoLang/BST.go:25 | `&BSTNode{Data: d}` is a valid leaf holding d |
| GoBstNodes.BstNode.TracksPush | GoLang/BST.go:75-79 | Popping the queue front and pushing two tracked children keeps every queued node matched to its tree |
| GoBstNodes.BstNode.Insert | GoLang/BST.go:21-36 | Linking in place gives the tree of the value insert; the node stays valid and only new nodes join it |
| GoBstNodes.BstNode.LevelOrder | GoLang/BST.go:71-83 | levelOrder returns breadth-first order, listing every datum once per occurrence |

## Left out

- Printing is not modelled: the tree printers, `__repr__`, `console.log` and `fmt` output.
- The demonstration drivers are not modelled: the `main` functions of the treaps (Java/Treap.java:296-327, Python/treap.py:237-266, JavaScript/treap.js:217-242) and of the Go BST (GoLang/BST.go:85-89). The van Emde Boas `main` is modelled as `VebClient.Demo`, and the C++ `main` as `CppBst.Driver`, with the intended remove, since its remove(3) as written descends right from 2 and then ends without returning a value.
- Random priorities are not modelled. They become parameters: the priority of each treap insert, and a `prios` sequence for merge. The ranges drawn (1..100 in Python, 0..100 in JavaScript, Java's `Random`) are not modelled.
- `Math.sqrt` on doubles is replaced by an exact integer square root. The universes are exact squares, so floor and ceil of the root agree. Universes past the range where doubles are exact are not modelled.
- VebUpdates.Insert: the contract promises validity and the new contents only for a key not already present. A duplicate insert corrupts the node, as shown under Findings.
- VebUpdates.Insert: keys of 2^31 and above are not modelled faithfully. The swap at JavaScript/van_emde_boas.js:84 uses `^`, which works on signed 32-bit integers. When the min is 2^31 or more and a smaller key arrives, the key carried down becomes min − 2^32, a negative number, and goes into a wrong cluster. The model swaps exactly. This matters from the universe 2^32 on.
- VebDelete.Delete requires a present key. The program does not check presence. When the node, or a cluster the call reaches, holds a single key, the first branch (JavaScript/van_emde_boas.js:120-121) clears it whatever x is, so an absent key can delete a present one (shown under Findings). VebClient.DeleteAsWritten models that branch for every key. For an absent key on a node holding two or more keys it gives None: the other branches then recurse into clusters that may not exist, and what they do is not modelled.
- Every van Emde Boas query and update requires x < u. The program does not check this.
- In-place updates and aliasing are modelled as values: the vEB nodes, the treap nodes and the C++ nodes. Operations return the new node. The treap `root` field and the C++ `root` field are reassigned with the result. Object identity between nodes is not captured, and neither is split's reuse of the same node objects in both parts.
- CppBst.Bst.Remove requires that the private remove is defined on the root. CppTree.RemoveInPlace gives None when a node the call visits holds a datum other than the one being removed: the branches at CPP/BST.cpp:51-54 recurse into a child and then end without returning a value, which C++ leaves undefined. So remove as written is modelled only on an empty tree or when the root holds the datum, and then, for a root with two children (CPP/BST.cpp:60-62), only when removing the successor's datum from the right subtree is defined too, as when the right child has no left child. Where it is defined, the root's datum is overwritten in place by its successor's, and the tree returned loses the node and its left subtree. On 2 with children 1 and 5 over 4, remove(2) copies 4 up and then runs off the end below 5, so it is undefined.
- CppTree.RemoveIntended keeps only the loose order (left at most, right at least a node's datum), not the strict order insert builds. With a datum held twice, copying the successor up can leave an equal datum on its right: removing 2 from 2 over (1, 5 over (5, 7)) gives 5 over (1, 7 over 5).
- Memory management is not modelled: C++ `delete`, and the Go garbage collector.
- The Python search returns `False` for an empty treap. This is modelled as the empty tree, like `null` in Java and JavaScript.
- GoBst.Search requires a node: the Go method dereferences its receiver, so a nil root panics.
- BitUtils.BitLength takes a natural number. For a negative n, Ruby's get_bit_length never reaches 0, because -1 >> 1 is -1 (Ruby/utils.rb:11), and the recursion ends in SystemStackError. Negative inputs are not modelled, for it and for BitUtils.NearestPow2.
- Integer widths: the treaps, the Go BST and the C++ BST use unbounded integers in place of 32- or 64-bit `int`. The demonstration values are far from overflow.
- The Go traversals inorder, preorder and postorder are modelled as functions on the node's tree value (`GoBst`), not as methods on `GoBstNodes.BstNode`. They only read the nodes.

## Findings

| source | as written | input that shows it | evidently intended | confidence | as-written member | corrected member |
|---|---|---|---|---|---|---|
| Ruby/utils.rb:15-25 | `(n & (n - 1)).zero` calls a method Integer does not have, so nearest_pow_2 raises NoMethodError on every call | n = 5 | `zero?`: 0 for 0, n itself for a power of two, otherwise the next power of two (8 for 5) | high, not executed | BitUtils.NearestPow2AsWrittenRaises | BitUtils.NearestPow2 |
| JavaScript/van_emde_boas.js:73-115 | insert has no membership check: re-inserting the key that is both min and max also stores it in a cluster | universe 4, insert(1) twice, then delete(1): isMember(1) still answers true | a key already present is left alone | high, not executed | VebClient.DuplicateInsert | VebClient.InsertChecked |
| JavaScript/van_emde_boas.js:117-121 | delete has no membership check: a node holding a single key is cleared whatever key is deleted | new VanEmdeBoas(16), insert(3), delete(5): isMember(3) answers false | an absent key is left alone | high, not executed | VebClient.AbsentDeleteClears | VebClient.DeleteChecked |
| Java/Treap.java:125-161 | split labels the original treap as the right part unless a second root above it was found; when every key is below the split key, that returns all keys as the right part | treap {1}, split(2) | the left part holds the keys below 2 | medium, not executed | TreapOps.SplitAllBelow | TreapOps.SplitChecked |
| GoLang/BST.go:49-58 | preorder calls inorder for the subtrees | the ordered tree 1 → (3 → 2, 4): preorder gives [1, 2, 3, 4] | [1, 3, 2, 4], which rebuilds the tree when inserted in order | high, not executed | GoBst.PreOrderAsWrittenLoses | GoBst.PreOrderRebuilds |
| GoLang/BST.go:60-69 | postorder calls inorder for the subtrees | the same tree: postorder gives [2, 3, 4, 1] | [2, 4, 3, 1], whose reverse rebuilds the tree when inserted in order | high, not executed | GoBst.PostOrderAsWrittenLoses | GoBst.PostOrderRebuilds |
| CPP/BST.cpp:48-64 | the descent branches do not return the subtree root, and a node with two children returns what removing its successor's datum from the right returns instead of reattaching it as the right child | 2 with children 1 and 3: remove(2) returns the empty tree, losing 1 and the root; remove(3) ends without a return value | every branch returns the subtree's new root: 3 over 1 for remove(2), 2 over 1 for remove(3) | high, not executed | CppTree.TwoChildrenLost | CppTree.RemoveIntendedElems |
| CPP/BST.cpp:77-79 | the public remove drops the new root returned by the private remove | a tree holding only 2, remove(2): search(2) still finds 2 | the returned root replaces the stored root | high, not executed | CppBst.RemoveKeepsRoot | CppBst.Bst.RemoveChecked |
