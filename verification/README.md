# A verified model of the prolly tree

This project models the core of a prolly tree library: a B+-tree of byte-string
keys and values whose nodes are chunks in a content-addressed store, so that a root
hash stands for a whole immutable version. It proves, for the Dafny model, that the
operations keep the tree in shape, mean what they should on the map of keys to
values, and agree with one another.

Everything rests on one abstraction. `Trees.Tree` is the mathematical tree,
`ItemsOf` its sorted item sequence, and `NodeOf`/`HashOf` the one node chunk and hash
that represent it faithfully: each entry of an internal node carries the largest key
of its child, the child's hash and the exact number of items below. `Held` says that
all its chunks are in a store, `WellFormed` that it has the shape of a whole tree.
The imperative code (methods and classes over a mutable chunk store) works on hashes
and node chunks only and is proved against functions on trees; what those functions
mean for the item sequence and the map is proved about them as lemmas.

| file | what it models |
|---|---|
| `Sequences`, `Keys`, `Items` | sequence laws, the key order, sorted items and the map they stand for |
| `Nodes`, `Values`, `Trees` | chunks, value representations, trees and their encoding |
| `Insertion`, `Deletion`, `Steps`, `Bounds`, `Heights`, `Sharing`, `ExactSharing` | the operations on trees: shape, items, each step exactly, height, shared subtrees |
| `Store`, `CoreLogic`, `Modification` | the chunk store, and the recursive operations on hashes |
| `Gc`, `ProllyTree`, `Runs`, `Levels`, `Snapshots` | mark and sweep, the tree object, whole runs of its operations, their levels, and reading during changes |
| `Scans`, `Trails`, `Cursors`, `Gaps`, `Pages`, `Lookups` | what a scan returns, the path stack, the scan cursor, pages, seeks |
| `Diffs`, `ExactDiffs`, `MinimalDiffs`, `Differ` | what a difference reports and means, when it is the least one, and its computation on hashes |
| `Hierarchy`, `Listings` | the preorder walk over nodes and entries, and what each listed item shows |
| `FileFormat`, `FileIo`, `FileLayout`, `FileVerdicts` | the binary file: writing and reading, the place of every byte, the verdict on any bytes |
| `Assumptions` | the assumptions of the model are consistent |

## Assumptions

The hash function, the node serialisation and the content-defined chunker are the
function fields of `Nodes.Env`, together with the tree's configuration.
`Nodes.Trusted` states what is assumed of them: `minFanout > 0` and
`targetFanout >= 2 * minFanout` (src/tree/prolly_tree.rs:27-30), no two byte strings
with one hash, `decode(encode(n)) == n`, and cuts that tile the value or none at all.
`Assumptions.TrustIsPossible` shows that all of it can hold at once, with values of
all three forms. The file module assumes of JSON, CRC-32 and BLAKE3 what
`FileIo.Dependable` states: JSON reads back what it wrote, and checksums have their
widths; `Assumptions.DependenceIsPossible` shows that this can hold.

## Where the code and its description differ

- A reverse scan whose upper bound falls strictly between two leaves starts one item
  too high and stops at once, or passes over one item too few
  (src/tree/cursor.rs:650-655 with 203-220). The model does what the code does;
  `Gaps.ScanMeaning` says exactly when the result is still what was asked for, and
  `Gaps.ReverseScanLosesRows` is a scan that loses everything. Pages are not hurt
  twice: a page after the first never starts in a gap (`Gaps.RestartHasNoGap`).
- A difference is always a correct patch, but it is not always the least one. It is
  exactly when the recursion meets every key that both trees hold
  (`MinimalDiffs.DiffExactIff`), which trees with one skeleton do, and others may.
  `ExactDiffs.SameContentsReported` is a pair with equal contents and a nonempty
  difference.
- A garbage-collected version can never be checked out half (`Runs.VersionsPersist`),
  unless a caller stores a value whose chunk reads as a node with missing children.
  Then it can (`Runs.HalfATreeChecksOut`), after any run that ever had a branch for a
  root (`Runs.HalfATreeIsReached`), and whenever a reference dangles, some half tree
  checks out (`Runs.DanglingChecksOut`). What a run asks of an inserted value is exact:
  the insertion leaves a dangling reference if and only if a chunk of the value has one
  (`Prolly.Inserted`, `Store.GrowthKeepsClosedIff`).
- The level of a node is a `u8`, and a new root gets the level of the old one plus one
  (src/tree/prolly_tree.rs:161). With a target fanout of two, which the constructor
  accepts, a node that splits leaves a full right half, and 258 ascending insertions
  reach level 256. Without overflow checks the level wraps to zero and
  `Node::new_internal` refuses it (src/node/definition.rs:73), after the left half was
  made the root (src/tree/prolly_tree.rs:145): the insertion fails, and 257 of the 258
  items are lost from the tree (`Heights.ClimbFails`, `Levels.Climb`). The model does
  that; a build with overflow checks stops with a panic at that place.
  `Heights.LevelsFitIff`: with less than `2^64` insertions this happens for no input
  exactly when the target fanout is above two.
- The layout note `PRLY` puts block checksums after the contents and a length field
  into the end block; src/store/format_v2.rs:135-201 does neither, and the model
  follows the code.
- A chunk of `2^32` bytes or more is written whole but indexed with its length modulo
  `2^32` (src/store/file_io_v2.rs:54), so it does not read back: `FileIo.RoundTripIff`
  and, for one chunk, `FileIo.LongChunkIsLost`.

## Model

| member | source | states |
|---|---|---|
| `Deletion.DeleteCorrect` | src/tree/core_logic.rs:408-503 | On every well-formed tree and for every key, deletion never reaches an internal error; it reports `NotFound` exactly when the key is absent, and otherwise the result holds the old items without the key, on the same level and with every subtree in shape; a whole node vanishes only when it held that one entry |
| `Deletion.RebalanceOk` | src/tree/modification.rs:205-239 | Repairing an underfull child that has a sibling always succeeds, brings every child back between the two fanouts, keeps the item sequence, and drops a child exactly when no sibling beside it has more than the minimum |
| `Steps.DeleteRepairs` | src/tree/modification.rs:205-365 | What a deletion makes of the node above an updated child, in full: nothing if the child has enough entries; else the left sibling gives its last entry if it has more than the minimum, else the right one its first, else the child and the left sibling (the right one, for a first child) become one node with the entries of both, in order; every other child is as it was |
| `Steps.DeleteDrops` | src/tree/core_logic.rs:486-499 | Above a child that is gone: exactly its entry goes, and the node with it if that was the only one |
| `Steps.DeletedRoot` | src/tree/prolly_tree.rs:250-264 | The root after a deletion: a branch left with one child gives way to it, one level down and no more; any other root stays |
| `Deletion.ShiftRightOk` | src/tree/modification.rs:241-283 | Borrowing from the left moves one entry across and keeps the joint items, the level and the shape of everything below |
| `Deletion.ShiftLeftOk` | src/tree/modification.rs:285-327 | The same for borrowing from the right |
| `Deletion.JoinOk` | src/tree/modification.rs:329-365 | A merge holds the items of both nodes in order, and as many entries as both together |
| `Deletion.DeleteRootCorrect` | src/tree/prolly_tree.rs:240-266 | With the root transitions: the new root is well formed (or gone when the last item went), denotes the items without the key, and is the old one exactly when the key was absent |
| `Insertion.InsertCorrect` | src/tree/core_logic.rs:211-296 | On every well-formed tree insertion yields one tree or two halves that are both in shape (occupancy between the fanouts, one level, everything below in shape) and together hold the items with the key set; the halves share one entry more than the target fanout, the left one half of it rounded down |
| `Steps.SplitsInHalf` | src/tree/core_logic.rs:228-294 | A node splits exactly when it is full and gets one entry more, a leaf a new key and a branch the other half of a child; the left half gets half of the entries, rounded down |
| `Steps.InsertedEntries` | src/tree/core_logic.rs:221-294 | What entries it has then, in order: of a leaf the items with the key set, of a branch its children with the grown child in place, dealt to the halves from left to right |
| `Steps.InsertedRoot` | src/tree/prolly_tree.rs:144-165 | The root after an insertion: the grown tree itself, or one branch over exactly its two halves, one level up |
| `Insertion.InsertRootCorrect` | src/tree/prolly_tree.rs:128-167 | With a new root over a split: the result is well formed and denotes the updated items; also from the empty tree |
| `Insertion.NewTopCorrect` | src/tree/prolly_tree.rs:144-164 | What the object is left with is well formed: the updated items or, when the root splits at level 255, a nonempty first part of them, the rest of which is lost |
| `Insertion.RouteSplits` | src/tree/core_logic.rs:254-260 | The child that is descended into separates the items: all before it lie below the key, all after it above |
| `Steps.RouteIsFirst` | src/tree/core_logic.rs:254-260 | It is the first child whose largest key is not below the key, or the last child |
| `CoreLogic.SiblingPosition` | src/tree/core_logic.rs:268-275 | The binary search for a split sibling always lands immediately right of the child that split |
| `CoreLogic.RouteIs` | src/tree/core_logic.rs:254-260 | The linear search along stored boundaries picks the child that the tree's own maximum keys prescribe |
| `CoreLogic.SumIsCount` | src/tree/core_logic.rs:286-286 | The sum of the children's counters is the exact number of items below |
| `CoreLogic.GetRecursive` | src/tree/core_logic.rs:15-46 | `get` on a root hash returns the value that the item sequence has at the key, or none, and never an error |
| `CoreLogic.InsertRecursive` | src/tree/core_logic.rs:211-296 | The chunk-store insertion reports exactly the hashes, boundary keys and counts of the grown tree; all its parts are in the store, its nodes and nothing else are added, at most two a level, no chunk is changed and no new node refers to a missing chunk |
| `CoreLogic.StoreGrownLeaf` | src/tree/core_logic.rs:221-252 | A leaf is stored whole or, over the target fanout, as two halves cut at the middle, and reported faithfully |
| `CoreLogic.StoreGrownBranch` | src/tree/core_logic.rs:264-294 | A branch with an updated child and possibly a filed sibling is stored whole or split at the middle, and reported faithfully |
| `Modification.HandleUnderflow` | src/tree/modification.rs:205-239 | The strategy rewrites the parent's entries to exactly those of the rebalanced children, with all parts stored; it fails, changing nothing, exactly when the underfull child is the only one |
| `Modification.BorrowFromLeft` | src/tree/modification.rs:241-283 | Two nodes and two parent entries are rewritten to the shifted pair: boundaries, hashes and counts exact |
| `Modification.BorrowFromRight` | src/tree/modification.rs:285-327 | The same in the other direction |
| `Modification.MergeIntoLeft` | src/tree/modification.rs:329-365 | The left node takes in the right one's entries, the parent drops one entry and reports the joint count |
| `Modification.DeleteRecursive` | src/tree/core_logic.rs:408-503 | The chunk-store deletion never fails, reports exactly the shrunk tree, says whether the key was there, and adds exactly the nodes of the shrunk tree and the roots of the underfull children on the path, one chunk at the leaf and at most three a level above |
| `Modification.DeleteFromLeaf` | src/tree/core_logic.rs:417-440 | The leaf case: removal, disappearance or not found, as the tree function says |
| `Modification.AfterChild` | src/tree/core_logic.rs:458-500 | An internal node's part of a deletion, for each result of its child, including the cascade of vanished nodes |
| `Modification.CountOfNode` | src/tree/prolly_tree.rs:332-337 | A node's entry count (leaf) or counter sum (branch) is the number of items of its tree |
| `Trees.HashOfInjective` | src/node/definition.rs:46-60 | A root hash stands for at most one tree |
| `Trees.ReadsBack` | src/tree/core_logic.rs:15-46 | Reading a stored tree by following hashes yields exactly its items |
| `Trees.RootBringsTree` | src/tree/prolly_tree.rs:313-324 | In a store without dangling references, a stored root chunk brings its whole tree |
| `Store.BoundaryIsMaxKey` | src/tree/io.rs:33-42 | The boundary key taken from a stored node is the largest key of its subtree |
| `Bounds.InnerCount` | src/node/definition.rs:98-103 | A non-root subtree of level `l` holds at least `minFanout^(l+1)` items |
| `Bounds.HeightBound` | src/tree/prolly_tree.rs:146-165 | With a minimum fanout above one, a tree of root level `h > 0` holds at least `2 * minFanout^h` items |
| `Heights.InsertExcess` | src/tree/core_logic.rs:211-296 | With a target fanout above two, an insertion adds no more to a tree's excess (the entries of each node beyond two, worth twice as much a level up) than it adds items, and a split at the root pays for a new level out of it |
| `Heights.Climbs` | src/tree/core_logic.rs:221-294 | With a target fanout of two, putting `n` ascending items into the empty tree, for `n` from 2 to 257, gives a whole tree of level `n - 2` |
| `Heights.ClimbFails` | src/tree/prolly_tree.rs:144-164 | So the 258th ascending insertion needs level 256 and fails, and the tree is left with the first item alone, while all insertions before it succeed |
| `Heights.LevelsFitIff` | src/tree/prolly_tree.rs:161-162 | Of the configurations the constructor accepts, exactly those with a target fanout above two let no insertion fail, whatever insertions and deletions are made, with less than `2^64` insertions among them |
| `Heights.InsertionsFitIff` | src/tree/prolly_tree.rs:161-162 | The same for insertions only, however many: exactly with a target fanout above two none fails as long as there are less than `2^64` items |
| `Heights.ChangesFit` | src/tree/prolly_tree.rs:161-162 | With a minimum fanout above one that holds with deletions too |
| `Sharing.InsertShares` | src/tree/core_logic.rs:261-287 | Every subtree off the path of an insertion is a subtree of the new tree, hence keeps its hash |
| `Sharing.DeleteShares` | src/tree/core_logic.rs:452-499 | Every subtree off the path of a deletion is a subtree of the new tree: beside the path everything, except that of the one sibling an underfull child draws on (the left one if it can lend, else the right one if it can, else the merge partner) only what is below it |
| `Sharing.SiblingsStay` | src/tree/core_logic.rs:466-499 | When the child on the path stays full enough, is removed, or does not have the key, every other child survives as it is |
| `ExactSharing.DeleteSharesIff` | src/tree/core_logic.rs:408-503 | Deleting a present key keeps, of all subtrees of the old tree, exactly those off its path |
| `ExactSharing.InsertSharesIff` | src/tree/core_logic.rs:211-296 | An insertion that changes the map keeps exactly those off its path, when it overwrites, or the target fanout is above two |
| `ExactSharing.SharingExactIff` | src/tree/core_logic.rs:228-248 | Of the configurations the constructor accepts, exactly those with a target fanout above two have every changing insertion share exactly what is off its path |
| `ExactSharing.SplitRestores` | src/tree/core_logic.rs:228-241 | With a target fanout of two a split can restore a node of the path: a concrete full root leaf that is the right half of the new tree |
| `Items.BinarySearch` | src/tree/core_logic.rs:222-225 | `binary_search` on ascending keys: found with the key's index, or not found with its insertion point |
| `Items.UpsertIsUpdate` | src/tree/prolly_tree.rs:128-167 | Setting a key in a sorted item sequence is map update |
| `Items.WithoutIsRemoval` | src/tree/prolly_tree.rs:240-266 | Removing a key from a sorted item sequence is map removal |
| `Keys.LexIsTotalOrder` | src/common.rs:8-9 | Byte-string comparison is a strict total order |
| `Prolly.InsertSame` | src/tree/prolly_tree.rs:166-166 | Setting a key to the value it has rebuilds the very same tree |
| `Prolly.InsertMeaning` | src/tree/prolly_tree.rs:128-167 | Insertion is map update, and the root hash changes exactly when the map did not hold that very pair; when a new root would be too high, only a lower part of the updated map is left |
| `Prolly.DeleteMeaning` | src/tree/prolly_tree.rs:240-266 | Deletion is map removal, and the tree stays the same exactly when the key was absent |
| `Prolly.InsertAtRoot` | src/tree/prolly_tree.rs:131-165 | The root transition of insertion on the store: the new root hash, everything stored and nothing else, at most `2 * (level + 1) + 1` new node chunks, and one for a first leaf; at level 255 a split fails, with the left half for a root |
| `Prolly.StoreRoot` | src/tree/prolly_tree.rs:147-164 | A new root over two halves, one level up in wrapping arithmetic; level zero is refused, and then nothing is stored |
| `Prolly.DeleteAtRoot` | src/tree/prolly_tree.rs:245-264 | The root transition of deletion: collapse, disappearance, or the old root, exactly those chunks added, at most `3 * level + 1`, none when the key is absent |
| `Prolly.ProllyTree.constructor` | src/tree/prolly_tree.rs:27-36 | A new tree is the empty map |
| `Prolly.ProllyTree.Get` | src/tree/prolly_tree.rs:109-116 | Returns the map's value at the key, or none |
| `Prolly.ProllyTree.Insert` | src/tree/prolly_tree.rs:128-167 | Map update on the object, returning whether the map changed, or the error of a root that would be too high, exactly then, leaving a lower part of the map; the store gains exactly the value's chunks and the new nodes, and has a dangling reference afterwards exactly when a chunk of the value brings one |
| `Prolly.ProllyTree.InsertBatch` | src/tree/prolly_tree.rs:232-238 | The updates one after the other up to the first failure; returns whether the root changed |
| `Prolly.ProllyTree.Delete` | src/tree/prolly_tree.rs:240-266 | Map removal on the object; returns whether the key was there; changes neither root nor store if it was not |
| `Prolly.ProllyTree.Checkout` | src/tree/prolly_tree.rs:313-324 | Succeeds exactly when there is no hash or it names a stored chunk that decodes as a node; then the object has that root, and stands for the tree of that hash if it is all there; changes nothing otherwise |
| `Prolly.ProllyTree.CollectGarbage` | src/tree/prolly_tree.rs:360-368 | Leaves exactly what the given roots and the current one reach, and the current tree as it was |
| `Prolly.ProllyTree.CountAllItems` | src/tree/prolly_tree.rs:326-339 | The root's counters give the exact number of items |
| `Runs.Perform` | src/tree/prolly_tree.rs:128-368 | The object's operations are exactly the steps that runs are made of |
| `Runs.RunSound` | src/tree/prolly_tree.rs:128-368 | At every point of every run from the empty tree the root denotes a well-formed tree that is all in the store, and no reference dangles; what is asked of an inserted value is exactly what its insertion needs for that |
| `Runs.VersionsPersist` | src/tree/prolly_tree.rs:313-324 | Whatever happens later in the run, a root the object once had either reads back as exactly its original items and can be checked out, or its root chunk is gone and checkout fails; nothing in between |
| `Runs.CheckoutSound` | src/tree/prolly_tree.rs:313-324 | Checking out an earlier root restores that version exactly when its root chunk is still stored |
| `Runs.RunRefinesMaps` | src/tree/prolly_tree.rs:128-368 | A run means what the same run on plain maps means, step by step, but for an insertion that fails, which keeps a lower part of the updated map |
| `Levels.RunLevels` | src/tree/prolly_tree.rs:128-368 | At every point of every run, with deletions, collections and checkouts, the level of the root is a byte and, with a target fanout above two, `2^(level + 1)` is at most the number of insertions made plus two |
| `Levels.InsertionFits` | src/tree/prolly_tree.rs:128-167 | So an insertion in a run cannot fail, and is map update, when the target fanout is above two and less than `2^64` insertions were made, or the minimum fanout is above one and the items are less than `2^64` |
| `Levels.Climb` | src/tree/prolly_tree.rs:232-238 | Performed on the object: a batch of 258 ascending items, with a target fanout of two, returns the error and leaves the map of the first item |
| `Runs.HalfATreeChecksOut` | src/tree/prolly_tree.rs:313-324 | Without the condition on values the guarantee fails: after any run that had a root whose child is now gone, inserting a value that encodes that root node makes the earlier root check out, while nothing reads back from it at any depth |
| `Runs.HalfATreeIsReached` | src/tree/prolly_tree.rs:313-368 | Every run that ever had a branch for a root can be led there: leave the tree, collect, and insert such a value under a key the version did not have; the steps before that insertion are a run |
| `Runs.DanglingChecksOut` | src/tree/prolly_tree.rs:313-324 | The other half, of single states: whenever a reference dangles in a store, some stored hash can be checked out from which nothing reads back at any depth |
| `Gc.LiveSetIsLeast` | src/gc.rs:67-130 | The marked set is the least set that holds the stored roots and is closed under the references of everything that decodes as a node |
| `Gc.Mark` | src/gc.rs:51-130 | The worklist terminates with exactly the live set and never reports an error |
| `Gc.Collect` | src/gc.rs:31-155 | Afterwards the store is exactly the live chunks, unchanged, and the result is the number of chunks removed |
| `Gc.CollectKeepsTree` | src/gc.rs:67-155 | Every stored tree whose root was given is still all there |
| `Gc.CollectKeepsClosed` | src/gc.rs:67-155 | A store without dangling references has none afterwards |
| `Gc.LiveSetExact` | src/gc.rs:67-155 | When the roots name held trees whose value chunks do not read as nodes, the live set is exactly the nodes and value chunks of those trees |
| `Runs.LiveVersionsStay` | src/tree/prolly_tree.rs:360-368 | In a run, every stored version whose root is given to a collection, and the current one, is whole afterwards |
| `Runs.CollectionExact` | src/tree/prolly_tree.rs:360-368 | So a collection in a run leaves exactly what the named versions consist of: the rest is really gone |
| `Store.InMemoryStore.PutBytes` | src/store/mem_store.rs:96-103 | Files a chunk under its hash and leaves a chunk that is already there |
| `Store.InMemoryStore.DeleteBatch` | src/store/mem_store.rs:105-116 | Removes exactly the given hashes |
| `Store.InMemoryStore.AllHashes` | src/store/mem_store.rs:82-87 | Lists every stored hash once |
| `Store.LoadNode` | src/tree/prolly_tree.rs:44-48 | A missing chunk and an undecodable one are two different errors |
| `Store.StoreNode` | src/tree/io.rs:28-42 | Stores the chunk even when the node is empty and the boundary is an error |
| `Store.PrepareValueRepr` | src/tree/io.rs:83-115 | Gives a value its form and stores exactly its chunks; inline exactly up to the limit or without a cut, and then the store stays as it is |
| `Store.LoadValueRepr` | src/tree/prolly_tree.rs:50-71 | Succeeds exactly when all chunks are there, and otherwise names a missing one |
| `Store.PutAllKeepsClosedIff` | src/tree/io.rs:99-104 | Storing a value's chunks, before any node is stored, keeps the store free of dangling references exactly when no chunk reads as a node with missing references |
| `Store.GrowthKeepsClosedIff` | src/tree/io.rs:28-104 | Storing a value's chunks and then nodes with their references keeps it so exactly when the chunks refer to nothing missing in the end |
| `Nodes.PutKeepsClosedIff` | src/store/mem_store.rs:96-103 | The same for a single chunk: exactly when it is not a node, or one whose references are stored |
| `Values.ReprForm` | src/tree/io.rs:83-115 | Which form a value gets, for any cuts: inline up to the limit or when nothing is cut, the hash of the whole value for one piece, else the hashes of the pieces in order and the length of the value |
| `Values.ValueRoundTrip` | src/tree/io.rs:83-115 | Loading the representation of a value gives the value back, in all three forms, for any cuts that tile it, in every store that has its chunks whatever else it holds |
| `Values.ReprInjective` | src/tree/io.rs:83-115 | Different values have different representations |
| `Assumptions.TrustIsPossible` | src/tree/prolly_tree.rs:27-36 | The assumptions on hash, serialisation and chunker can be met together, for every valid configuration, by a chunker that gives values of all three forms |
| `Assumptions.DependenceIsPossible` | src/store/file_io_v2.rs:63-131 | So can those on JSON text and checksums |
| `Trails.TrailTotal` | src/tree/cursor.rs:28-28 | At every point of a path stack the items before, in and after its subtree make up all items |
| `Trails.DescendEdge` | src/tree/cursor.rs:327-341 | Descending along first (or last) children keeps what lies ahead |
| `Trails.NextLeaf` | src/tree/cursor.rs:320-346 | Moves to the leaf that holds the next items, or empties the stack exactly when none are left |
| `Trails.PreviousLeaf` | src/tree/cursor.rs:388-414 | The same backwards |
| `Cursors.SeekBound` | src/tree/cursor.rs:634-645 | The binary-search descent ends in the leaf that the boundaries prescribe, with everything before it below the key and everything after it above |
| `Cursors.FirstPosition` | src/tree/cursor.rs:621-670 | Phase one stands at the specified start of the item sequence, for both directions, with and without a bound |
| `Cursors.ApplyOffset` | src/tree/cursor.rs:673-720 | Phase two drops exactly `offset` items, across any leaf crossings; running off the tree leaves nothing |
| `Cursors.SkipExcludedStart` | src/tree/cursor.rs:726-740 | Phase three passes exactly the start key itself when it is excluded and next |
| `Cursors.Cursor.NewForScan` | src/tree/cursor.rs:611-741 | A new scan cursor has exactly the specified stream ahead of it; an empty tree gives an empty one |
| `Cursors.Cursor.NextInScan` | src/tree/cursor.rs:183-240 | Returns the next item of the stream with its value and moves past it, or none, without moving, where the bounds stop the scan |
| `Cursors.Cursor.StaysValid` | src/tree/cursor.rs:28-28 | A cursor stays valid, with the same items ahead, in every later store that has only grown |
| `Snapshots.ScanAcross` | src/tree/cursor.rs:183-240 | A scan with insertions and deletions made between its steps returns the rows of the tree as it was when the scan began |
| `Scans.RowsAreWanted` | src/tree/cursor.rs:611-741 | Unless it starts in a gap between leaves, a scan of any sorted items returns exactly the in-range ones in its direction from its offset on; an excluded start key that is present uses up one of a positive offset |
| `Scans.GapRowsIff` | src/tree/cursor.rs:646-655 | A reverse scan that starts in a gap still does so exactly when the item it loses (offset zero) or repeats (positive offset) is out of range or does not exist |
| `Scans.WantedIs` | src/tree/cursor.rs:611-741 | What is wanted, in plain terms: the items with a key between the bounds, each with or without itself, in scan direction, without as many as the offset says, or one fewer when the start key is there, is excluded and the offset is positive |
| `Scans.GapRowsAre` | src/tree/cursor.rs:646-720 | What a reverse scan from a gap returns: nothing, or with a positive offset what an offset one smaller should give |
| `Gaps.InGapIff` | src/tree/cursor.rs:634-655 | It starts in a gap exactly when the bound falls strictly between the key ranges of two adjacent leaves, or below the first leaf |
| `Gaps.ScanMeaning` | src/tree/cursor.rs:611-741 | On every well-formed tree and for all arguments: a scan returns exactly the wanted items if and only if it does not start backwards in a gap whose lost or repeated item is in range |
| `Gaps.ScanRows` | src/tree/cursor.rs:611-741 | What a scan of a well-formed tree returns in every case, a gap or not |
| `Gaps.ReverseScanLosesRows` | src/tree/cursor.rs:650-655 | A concrete tree of two leaves and a reverse scan from between them: two items are wanted, none is returned |
| `Gaps.RestartHasNoGap` | src/tree/prolly_tree.rs:407-413 | A scan restarted from a row, in either direction, never starts in a gap |
| `Pages.RowsGoOn` | src/tree/prolly_tree.rs:407-413 | On every whole tree, scanning on from a row, including or excluding it, yields exactly the rows that were still to come |
| `Pages.PagesTile` | src/tree/prolly_tree.rs:370-467 | On every whole tree, following the cursors of either kind of page, each page by a new scan of the tree, joins to the rows of the one scan without gap or repeat, for any positive limit and in either direction; a page announces another exactly when rows are left |
| `Pages.PagesMeaning` | src/tree/prolly_tree.rs:370-467 | So the joined pages are the wanted items if and only if the one scan returns them |
| `Pages.RowsInTree` | src/tree/cursor.rs:611-741 | The rows of the tree of a page, in every case |
| `Pages.Scan` | src/tree/prolly_tree.rs:370-422 | The page of `scan`: the first `limit` rows, the key of the next row as cursor, flags as specified; also without limit and for limit zero |
| `Pages.ScanSync` | src/tree/prolly_tree.rs:424-467 | The page of `scan_sync`: the last key of the page as cursor |
| `Scans.PageFields` | src/tree/prolly_tree.rs:402-422 | Each field of a page of `scan`: rows, cursor (the key of the row after it), flags and first key |
| `Scans.PageSyncFields` | src/tree/prolly_tree.rs:444-467 | Each field of a page of `scan_sync`: rows, cursor (its last key), flags and first key |
| `Lookups.SeekKey` | src/tree/cursor.rs:79-119 | The linear descent of a seek reaches the same leaf as the binary one |
| `Lookups.NewAtKey` | src/tree/cursor.rs:79-126 | A seek stands before the first item that is not below the key |
| `Lookups.SeekIs` | src/tree/cursor.rs:79-126 | What is ahead of a seek: all items from the first one on that is not below the key |
| `Lookups.Next` | src/tree/cursor.rs:130-180 | Plain iteration yields the items one by one, with their values |
| `Lookups.LookupsAgree` | src/tree/cursor.rs:79-180 | Made on one tree object, `get`, a seek followed by `next`, and a scan from a key to itself show the same, a scan of everything returns all items, and the item count is their number |
| `Diffs.DiffPatches` | src/diff.rs:51-224 | For any two trees there is a common multiset that makes up the left items with all reported left values and the right items with all reported right values, across equal-hash skips and every kind of mismatch |
| `Diffs.RootsPatch` | src/diff.rs:62-77 | The same for roots, present or absent |
| `Diffs.MergePatches` | src/diff.rs:94-143 | The same for the merge of two leaves |
| `Diffs.DiffApplies` | src/diff.rs:51-224 | Taking the reported left pairs out of the left items and putting the right ones in gives the right items and no others; an empty difference means equal contents |
| `Diffs.MismatchReported` | src/diff.rs:140-221 | A leaf against a branch, or branches of different levels: first every left item as a deletion, then every right item as an addition, each in order |
| `Diffs.RootReported` | src/diff.rs:62-76 | Against an absent root every item is reported, in order |
| `Diffs.ChildrenReported` | src/diff.rs:146-206 | Of two child lists the child with the smaller boundary key is reported first, as a whole; children with one boundary key are compared |
| `ExactDiffs.MergeIsMapDiff` | src/diff.rs:94-143 | The merge of two sorted leaves is exactly the key-sorted difference of their maps: one entry per changed key, with both values |
| `ExactDiffs.DiffIsMerge` | src/diff.rs:146-206 | On trees with equal levels and boundary keys the recursion, skips included, reports what one merge of the item sequences would |
| `ExactDiffs.DiffIsMapDiff` | src/diff.rs:51-224 | So there it is exactly the key-sorted map difference |
| `ExactDiffs.OverwriteKeepsSkeleton` | src/tree/core_logic.rs:220-252 | Overwriting a present key splits nothing and changes no level and no boundary key |
| `ExactDiffs.OverwritesDiff` | src/diff.rs:51-224 | Any two versions that runs of overwrites made of one tree differ by exactly the key-sorted map difference |
| `ExactDiffs.OverwriteDiff` | src/diff.rs:51-224 | A single overwrite by a different value is reported as exactly one modification |
| `ExactDiffs.SameContentsReported` | src/diff.rs:152-172 | A difference need not be minimal: two concrete well-formed trees with equal contents and a nonempty difference |
| `MinimalDiffs.TreesTold` | src/diff.rs:51-224 | What is reported for one key, on any two trees: its change, if the key is met or is not in both trees; otherwise both a deletion and an addition, changed or not |
| `MinimalDiffs.DiffExactIff` | src/diff.rs:51-224 | The difference of two well-formed trees is the difference of their maps, with one entry a key, if and only if every key in both is met: the routed children have one boundary key level by level, down to two leaves or to one and the same subtree |
| `MinimalDiffs.RootsExactIff` | src/diff.rs:62-77 | The same for roots, present or absent |
| `MinimalDiffs.SkeletonMeets` | src/diff.rs:146-206 | Trees with one skeleton meet every key |
| `MinimalDiffs.OtherSkeletonExact` | src/diff.rs:146-206 | Not only they: a concrete pair without a common skeleton and a nonempty difference that is exact |
| `Differ.GenerateDiffs` | src/diff.rs:272-303 | Although it goes breadth first, a whole subtree is reported in key order, as additions or deletions |
| `Differ.DiffLeaves` | src/diff.rs:91-143 | The leaf merge on loaded entries and values computes the merge of the items |
| `Differ.DiffChildNodes` | src/diff.rs:146-212 | The merge of children by boundary key, with skips of equal hashes, computes the difference of the two child lists |
| `Differ.RecursiveDiff` | src/diff.rs:51-224 | The recursion on root hashes never fails on stored trees and computes the difference of the two trees |
| `Differ.Diff` | src/tree/prolly_tree.rs:350-358 | `diff` of the object against another stored root |
| `Hierarchy.HierarchyCursor.constructor` | src/tree/hierarchy_cursor.rs:27-43 | A new cursor has the whole recursive preorder ahead of it |
| `Hierarchy.HierarchyCursor.NextItem` | src/tree/hierarchy_cursor.rs:51-134 | Returns the head of what is ahead and moves past it; none exactly at the end |
| `Hierarchy.HierarchyCursor.VisitFront` | src/tree/hierarchy_cursor.rs:101-131 | A visit emits the node, then puts its entries, then its children left to right, ahead of the rest |
| `Hierarchy.ShowEntry` | src/tree/hierarchy_cursor.rs:58-91 | An entry item shows the stored boundary, hash and count, or the key and the exact length of the value in all three forms |
| `Listings.EveryItemRight` | src/tree/hierarchy_cursor.rs:58-131 | Every item of a listing, field by field: a node item shows hash, level, kind and size of the subtree its path leads to, and its entries follow it in order; an entry item stands that many places after its node and shows its parent's hash and its index; an internal one the hash, largest key and item count of the subtree one step further, a leaf one key, kind, first chunk hash and length of the item |
| `Listings.EveryNodeListed` | src/tree/hierarchy_cursor.rs:114-127 | Every subtree within the depth limit has its node item |
| `Listings.ListingRight` | src/tree/prolly_tree.rs:469-529 | So for the listing of a whole tree, whose root is at depth zero with the empty path |
| `Listings.ListingComplete` | src/tree/prolly_tree.rs:469-529 | And for its completeness: each subtree up to the depth, and without a limit each item |
| `Hierarchy.ListedNodesLead` | src/tree/hierarchy_cursor.rs:114-127 | Every listed node is the one its `path_indices` lead to from the root, within the depth limit |
| `Hierarchy.NodesAreListed` | src/tree/hierarchy_cursor.rs:114-127 | Every node within the depth limit is listed under its path |
| `Hierarchy.ListsAllItems` | src/tree/hierarchy_cursor.rs:51-134 | Without a depth limit the listed leaf entries are the items of the tree, in order: key, kind and hash of the representation, and exact value length |
| `Hierarchy.HierarchyScan` | src/tree/prolly_tree.rs:469-529 | A page is exactly the slice of the preorder between offset and limit, and announces more exactly when more is left |
| `Listings.SliceIs` | src/tree/prolly_tree.rs:469-529 | A page is what lies between offset and limit, and announces more exactly when something is left |
| `FileFormat.NumberRoundTrip` | src/store/format_v2.rs:51-53 | Big-endian numbers of any width read back |
| `FileFormat.FileHeader.WriteTo` | src/store/format_v2.rs:47-56 | Writes the 42 header bytes at the position, overwriting |
| `FileFormat.ReadHeader` | src/store/format_v2.rs:58-78 | Reads a header, or fails when the bytes run out |
| `FileFormat.HeaderRoundTrip` | src/store/format_v2.rs:47-78 | A header reads back as written |
| `FileFormat.EntryRoundTrip` | src/store/format_v2.rs:93-115 | An index entry reads back as written: hash, offset, length and flags in this order |
| `FileFormat.EnvelopeRoundTrip` | src/store/format_v2.rs:189-201 | A block envelope reads back as written: tag, length and checksum in this order |
| `FileFormat.EofRoundTrip` | src/store/format_v2.rs:136-174 | An end block reads back as written: tag, metadata offset, index offset, signature and checksum in this order |
| `FileIo.WriteTree` | src/store/file_io_v2.rs:20-159 | For whatever order the chunks come in, the file is header, chunk data, index sorted by hash, metadata and end block, with every offset and checksum as the format wants it |
| `FileLayout.FileBytes` | src/store/file_io_v2.rs:20-159 | Every byte of a written file by its position: signature, version, offsets and reserved bytes of the header; hash, offset, length and flags of each index entry, sorted by hash, with the chunk at its offset; tag, length and checksum of both blocks; tag, both offsets, reversed signature and checksum of the end block; numbers digit by digit to base 256 |
| `FileIo.Assemble` | src/store/file_io_v2.rs:28-158 | The parts come out in the format's order: the finished header overwrites the space kept for it, and the checksum in the end block covers everything before it |
| `FileIo.ReadTree` | src/store/file_io_v2.rs:164-281 | Reads any byte string: the contents, or the first failing check in the order of the source |
| `FileVerdicts.ReadVerdict` | src/store/file_io_v2.rs:164-281 | What that is, from the bytes alone: the first fault (short or wrong header, block, index, metadata, extent or end block, each with its error), or else the metadata's root, configuration and description, and for each hash in the index the slice that its last entry names |
| `FileIo.ExtentsTile` | src/store/file_io_v2.rs:45-58 | The recorded extents tile the chunk data region exactly, from the header to the index block |
| `FileIo.WrittenReadsBack` | src/store/file_io_v2.rs:20-281 | A written file reads back with its root, configuration and description, and each chunk cut to its length modulo `2^32` |
| `FileIo.RoundTripIff` | src/store/file_io_v2.rs:20-281 | Reading gives back exactly what was written if and only if every chunk's length fits 32 bits |
| `FileIo.LongChunkIsLost` | src/store/file_io_v2.rs:45-58 | A chunk of `2^32` bytes reads back empty, and reading succeeds |
| `FileIo.ReadChunksAreSlices` | src/store/file_io_v2.rs:222-238 | Of any file that reads, whoever wrote it: the chunks are those the index names, each the slice of the file its entry says |
| `FileIo.ChecksumSeals` | src/store/file_io_v2.rs:180-281 | Two files that both read have equal checksums in their end blocks exactly when everything before those is equal, if no two byte strings have one checksum |

## Left out

- Async variants: each operation exists in an async and a sync form with the same logic; one is modelled, as one atomic step. Locks, `try_lock` failures and concurrent use of one store are not modelled.
- Differ.DiffChildNodes: the source starts the recursive calls on children concurrently and joins the results in order; here they are made in order.
- Lookups.Next: the plain cursor's `next` is taken as a scan step without bounds, and the leaf advance of both cursors as one method.
- Nodes.Trusted: freedom from collisions is assumed of all byte strings, with digests of any length; real 32-byte digests have it only for the chunks that occur.
- Prolly.ProllyTree.Checkout: when the hash names a node that is not the root of a whole stored well-formed tree, nothing is said about the object but its root hash.
- Heights.ChangesFit: for a minimum fanout of one and a target above two it is open whether, with `2^64` or more insertions and deletions among them, an insertion can fail while the items stay few; it would take at least `2^256 - 2` insertions (`Levels.RunLevels`).
- Integer widths: indices, counts, offsets and sizes are unbounded numbers, except the level of a new root, which wraps around like the `u8` it is, and the file, where 32- and 64-bit fields are explicit. The scan loops' `usize::MAX` stands for no limit.
- FileIo.ReadTree: an offset sum over `2^64`, which the source would let overflow, is an ordinary number here.
- FileIo.RoundTripIff: asks that the index block and the metadata block fit 32 bits and the file 64 bits; JSON text, timestamps and both checksums are parameters.
- BLAKE3, CRC-32, bincode, serde_json, FastCDC and the clock: parameters, as said under Assumptions.
- That equal contents have equal root hashes whatever the order of insertion: nodes split at the middle of a fixed fanout, so it does not hold in general.
- Trees loaded under another fanout configuration, and chunk maps imported from JavaScript without checking their hashes: one configuration and a content-addressed store are taken for granted.
- The parent's entry vectors and the cursors' node vectors are sequences that methods take and return or keep in fields; sharing of one vector between frames of the recursion is not modelled.
- The hierarchy scan's `start_key`, which the source ignores, its cursor token, which is always absent, and the async store's error variants other than a missing chunk.
- `src/lib.rs`, `src/wasm_bridge.rs`, the TypeScript types, event emitters, benchmarks, logging and error strings: bindings and reporting without deeper properties.
