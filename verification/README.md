# Gears: the versioned store, its hashes, and the transaction machine

This project models the state machine of the Gears SDK and proves what it is for.

**The store.** `Tree` is an IAVL+ tree: values in leaves, separator keys, heights, sizes and cached child hashes in inner
nodes, a child either in memory or absent and loaded by hash. The pure tree `IavlSpec.Avl` is what a node with its database
stands for (`IavlDb.Rep`): same fields, every cached hash equal to the child's hash recomputed from scratch, and every absent
child wholly in the database. Insertion, rotation, lookup, saving, reopening and ranges are methods on nodes, proved against that
tree; runs of them keep every saved version readable, and are runs of a plain map under versions in which each key
knows when it was last written (`IavlPlain.RunIsPlain`). Above it stand the key-value store with its two caches, prefix stores,
the multi-store with its application hash and its reopening, and the hand-over of a saved state from one node to another.

**The transaction machine.** Bank and account keepers, the ante handler, and `run_tx`, over the same two-cache layers, with
conservation of coins, all-or-nothing effects, and single use of transactions over whole runs. When a transaction passes, fails
or panics, and what it leaves of every balance and account, is told from the state before it (`AnteExact`, `Settlement`).

**Decimals.** Truncating powers, reduced-precision square roots, and printing and parsing of `Decimal256`.

How to read the model:

- The hash function is a parameter `H` from byte strings to 32 bytes, never assumed injective. Binding results say "equal, or
  here are two distinct byte strings with one hash"; results that hold only without collisions name the set of byte strings
  hashed so far (`seen`). `EMPTY_HASH` is `H([])`.
- A panic of the program is a `None`, a `false`, or a `Panic` outcome. Overflow of the `u8` height and the `u32` size, and of the
  256-bit addition of balances, is such a panic; 64-bit counters wrap.
- Two places of `trees/src/iavl/tree.rs` are modelled both as written and as evidently meant, by the parameter `Code`.
  Case 2 of the rebalancing (533-538) rotates the node where its comment, and the mirror image at 548-552, rotate the left
  child: `AsWritten` or `LeftChildFirst`. The rotations measure the moved subtree before its hash is installed (572-579,
  614-621): `SlotHash` reads an absent subtree by the old hash, `OwnHash` by its own. What the two as-written forms do is
  proved exactly: Case 2 on a tree wholly in memory by `IavlAsWritten.AsWrittenExactly`; the stale read for one rotation by
  `IavlRotate.RightStaleReadExactly`, for a whole insertion by `IavlStale.StaleInsertExactly`; both together, in any run, by
  `IavlDisk.ProgramReturnsExactly`, and for a block of writes by `BlockWrites.BlockIsBlind` and `BlockWrites.CalmGoesExactly`,
  from which `KvStore.KVStore.Commit` says when a block is committed. Order, contents and hashes hold for all forms whenever an insertion returns, balance for
  the meant one, and for all of them where nothing rotates (`IavlDisk.SteadyInserts`).
- What is in memory of a tree is a `Loads` value, read off the node. `IavlLoads.Safe` says, from the tree, the key and the
  `Loads`, that no rotation of an insertion moves a subtree that is only in the database.
- Node versions are assumed below 2^32 where a node is read back, as `deserialize` reads a `u32`; `IavlNode.SerializeRoundTrip`
  says that this is the only thing that can go wrong.
- Accounts, coins and supplies are stored under their real byte keys, as values rather than as their protobuf bytes: the
  encodings are taken to be injective. Key hashing and signature checking are functions in `Env`.
- The text of a `Uint256` is read by a foreign crate whose source is not part of this model: it is assumed to take at least
  one digit after at most one plus, nothing else, and to refuse what does not fit 256 bits (`DecimalText.ParseUint`).
- `hide` statements only leave definitions out of single proofs.

## Model

| member | source | states |
|---|---|---|
| ByteStrings.LessIsLexicographic | trees/src/iavl/tree.rs:398-417 | the order of keys: the first byte that differs decides, and a proper prefix comes first |
| ByteStrings.BoundsMean | trees/src/iavl/tree.rs:672-707 | an included bound is itself in range, an excluded one is not, and everything else goes by the order |
| Varint.DecodeBytesPrefix | trees/src/iavl/tree.rs:718-730 | length-prefixed bytes read back whatever follows them, and leave exactly what follows |
| Varint.SignedSplits | trees/src/iavl/tree.rs:146-178 | the signed numbers in a preimage are self-delimiting: equal concatenations have equal first numbers and equal rests |
| IavlFormat.VarIsLittleEndian | trees/src/iavl/tree.rs:180-241 | a number is written in groups of seven bits, lowest first, the high bit set on all but the last, and in no more than it needs |
| IavlFormat.SerializeFields | trees/src/iavl/tree.rs:180-241 | a reader of three numbers and strings to the end finds in a stored node its measures and version, then key and value, or key, left hash and right hash |
| IavlFormat.PreimageFields | trees/src/iavl/tree.rs:146-178 | and in what is hashed the same numbers doubled, the version cut to 32 bits, then key and value hash, or left hash and right hash |
| IavlNode.SerializeRoundTrip | trees/src/iavl/tree.rs:180-241 | a stored node reads back with its children cleared, if and only if its version fits 32 bits |
| IavlNode.LeafPreimage | trees/src/iavl/tree.rs:146-161 | equal leaf preimages name the same key, value hash and cut version |
| IavlNode.InnerPreimage | trees/src/iavl/tree.rs:163-176 | equal inner preimages name the same height, size, child hashes and cut version |
| IavlNode.PreimageKinds | trees/src/iavl/tree.rs:146-178 | a leaf and an inner node are never hashed over the same bytes |
| IavlSpec.GetReadsContents | trees/src/iavl/tree.rs:398-417 | a lookup by descent reads the map the tree holds |
| IavlSpec.EntriesAscend | trees/src/iavl/tree.rs:491-511 | in-order leaf keys are strictly ascending in every search tree |
| IavlSpec.RebalanceMeansSame | trees/src/iavl/tree.rs:524-555 | every rebalancing that returns keeps search order and contents, Case 2 either way |
| IavlSpec.SetMeansUpdate | trees/src/iavl/tree.rs:438-557 | whenever an insertion returns, the tree is a search tree of the old map updated at the key, whose leaf has the new version and every other leaf the version it had |
| IavlSpec.SetMeasured | trees/src/iavl/tree.rs:513-522 | stored heights and sizes equal the real ones after every insertion that returns |
| IavlUntouched.BesideStays | trees/src/iavl/tree.rs:438-557 | whenever an insertion returns, every subtree beside the search path that no rotation takes apart is a subtree of the result |
| IavlUntouched.MeantKeepsBeside | trees/src/iavl/tree.rs:491-555 | with Case 2 as meant a balanced tree keeps everything beside the search path |
| IavlUntouched.NewIsStamped | trees/src/iavl/tree.rs:438-641 | every subtree of the result was there before or carries the version of the insertion |
| IavlBalance.LeavesAtLeastFib | trees/src/iavl/tree.rs:513-520 | a balanced tree of height h has at least Fib(h + 2) leaves |
| IavlBalance.HeightFits | trees/src/iavl/tree.rs:21-31 | while the leaf count fits 32 bits, a balanced tree is lower than 64, so the 8-bit height has room |
| IavlBalance.CaseTwoAsWritten | trees/src/iavl/tree.rs:533-538 | the as-written Case 2 panics exactly on a leaf right child; otherwise its two rotations cancel and give back the same keys and subtrees |
| IavlBalance.CaseTwoRepairs | trees/src/iavl/tree.rs:533-538 | Case 2 as its comment says restores balance |
| IavlBalance.CaseFourRepairs | trees/src/iavl/tree.rs:547-552 | Case 4 restores balance |
| IavlBalance.IntendedKeepsBalance | trees/src/iavl/tree.rs:491-555 | with Case 2 as meant, an insertion into a balanced tree with room never panics and gives a balanced, measured tree |
| IavlBalance.IntendedStaysBalanced | trees/src/iavl/tree.rs:491-555 | so does every sequence of insertions, and the height stays below 64 |
| IavlAsWritten.AsWrittenExactly | trees/src/iavl/tree.rs:491-555 | for a balanced tree with no child absent from memory, from its shape and the key: exactly when the as-written code returns, and exactly when what it returns is balanced |
| IavlAsWritten.FourInsertionsPanic | trees/src/iavl/tree.rs:533-538 | inserting 10, 5, 7, 8 panics as written |
| IavlHash.SeparatorIsFirstKey | trees/src/iavl/tree.rs:163-176 | the separator, which is not hashed, is the least key on its right |
| IavlHash.RootBinding | trees/src/iavl/tree.rs:141-178 | search trees with one root hash hold the same map, or two hashed byte strings collide |
| IavlHash.HashDetermines | trees/src/iavl/tree.rs:141-178 | without collisions one root hash is one tree |
| IavlDb.LoadedStandsFor | trees/src/iavl/node_db.rs:71-78 | a tree wholly in the database is loaded by its hash as a node that stands for it |
| IavlDb.StoredTreeUnique | trees/src/iavl/node_db.rs:71-78 | a database holds at most one tree at a hash, collisions or not |
| IavlDb.WrittenCovers | trees/src/iavl/node_db.rs:123-134 | saving writes only nodes of the tree, and every node that was not in the database |
| IavlDb.WritesKeepInDb | trees/src/iavl/node_db.rs:118-134 | writing one tree's nodes leaves every other stored tree stored |
| IavlRotate.RightRotateRefines | trees/src/iavl/tree.rs:559-599 | with its hash installed first, or loaded, a right rotation of nodes is the rotation of trees, cached hashes included |
| IavlRotate.LeftRotateRefines | trees/src/iavl/tree.rs:601-641 | the mirror image |
| IavlRotate.RightRotateAny | trees/src/iavl/tree.rs:559-599 | whatever the stale read finds, a right rotation that returns stands for the turned tree, possibly under wrong measures |
| IavlRotate.RightStaleReadExactly | trees/src/iavl/tree.rs:569-579 | reading by the old hash gives the meant rotation if and only if the moved subtree is loaded |
| IavlRotate.LeftStaleReadExactly | trees/src/iavl/tree.rs:611-621 | the mirror image |
| IavlInsert.RebalanceNode | trees/src/iavl/tree.rs:524-555 | the four cases on nodes give a node that stands for the rebalanced tree |
| IavlInsert.RecursiveSet | trees/src/iavl/tree.rs:438-557 | an insertion on nodes that returns, through lazy loading and every case, stands for the map updated at the key, every other leaf under its old version, all cached hashes right; it returns exactly when the insertion into the tree does, with that tree, if the code reads straight or what moves is in memory |
| IavlLoads.WholeIsSafe | trees/src/iavl/tree.rs:438-557 | in a tree wholly in memory every insertion moves only what is in memory, and leaves it so |
| IavlStale.StaleInsertExactly | trees/src/iavl/tree.rs:438-641 | where the database has none of the trees under way, the insertion with the stale reads returns exactly when the insertion into the tree does and moves only what is in memory, and differs from the straight one exactly otherwise |
| IavlFresh.RunKeepsAged | trees/src/iavl/tree.rs:269-362 | in every state of every run each node in the database was made by a recorded version, and no tree is younger than where it is kept |
| IavlFresh.FreshIsBlind | trees/src/iavl/tree.rs:572-579 | so under a version later than all recorded none of the trees under way of an insertion into a balanced tree is in the database |
| IavlFresh.NextInsertExactly | trees/src/iavl/tree.rs:419-641 | in any run, at its latest version, from a balanced tree with room, Case 2 either way: the insertion that reads stale hashes returns exactly when the insertion into the tree does and moves only what is in memory |
| IavlDisk.SteadyInserts | trees/src/iavl/tree.rs:491-522 | an insertion that rotates nothing, told from heights along the search path, always returns and keeps balance, whatever is in memory |
| IavlDisk.OverwriteIsSteady | trees/src/iavl/tree.rs:466-470 | overwriting a key rotates nothing |
| IavlDisk.DiskExactly | trees/src/iavl/tree.rs:491-641 | with only the root in memory the as-written insertion is safe and returns exactly when nothing rotates, or only Case 4 above a leaf just split |
| IavlDisk.ProgramReturnsExactly | trees/src/iavl/tree.rs:419-641 | the program as written, in any run, from a balanced tree with room: an insertion returns exactly when no panic of Case 2 is forecast and all that moves is in memory |
| IavlDisk.FirstWriteExactly | trees/src/iavl/tree.rs:419-641 | after a save or a reopening, in any run: the first insertion returns exactly under the condition of `DiskExactly` |
| IavlDisk.FourthInsertionAfterSave | trees/src/iavl/tree.rs:601-621 | inserting 1, 2, 3, saving, and inserting 4 panics, though the tree's insertion keeps balance |
| IavlRuns.SaveKeepsVersions | trees/src/iavl/tree.rs:346-361 | a new version and its record leave every earlier version held |
| IavlRuns.RunKeepsInv | trees/src/iavl/tree.rs:269-362 | every run of insertions, saves and reopenings keeps every recorded version in the database, and no other records |
| IavlRuns.HistoryGrows | trees/src/iavl/tree.rs:316-362 | a version once recorded is never recorded differently |
| IavlRuns.SnapshotPersists | trees/src/iavl/tree.rs:269-362 | reopening a saved version, whatever was written since, gives exactly the tree and map that was saved |
| IavlPlain.RunIsPlain | trees/src/iavl/tree.rs:269-436 | every step of every run is a step of a plain versioned map: a write marks its key with the next version and nothing else, a save keeps map and marks under it, an opened version has them back |
| IavlTree.NodeDB.RecursiveTreeSave | trees/src/iavl/node_db.rs:123-134 | writes the loaded nodes, children before parents |
| IavlTree.NodeDB.SaveTree | trees/src/iavl/node_db.rs:138-150 | the same for the root under its own hash, then lets go of the root's children |
| IavlTree.RecursiveGet | trees/src/iavl/tree.rs:398-417 | a lookup that loads absent children reads what the tree reads |
| IavlTree.Tree.Open | trees/src/iavl/tree.rs:269-306 | refused exactly for a version that was not saved; otherwise the tree saved as the target, or as the latest version |
| IavlTree.Tree.RootHash | trees/src/iavl/tree.rs:364-369 | the root hash from cached hashes is the one recomputed from scratch |
| IavlTree.Tree.Get | trees/src/iavl/tree.rs:391-396 | reads the tree's map |
| IavlTree.Tree.Set | trees/src/iavl/tree.rs:419-436 | the map updated at the key, which alone is marked written under the next version, every saved version still held; the exact tree if the code reads straight or what moves is in memory. As written, when the database has none of the trees under way, it returns exactly if the tree's insertion does and moves only what is in memory; at the latest version of a run, from an empty or regular tree, that is always so, and then it returns exactly if no panic is forecast and what moves is in memory |
| IavlTree.Tree.SaveVersion | trees/src/iavl/tree.rs:316-362 | saves the next version, or accepts the very same tree there already, or refuses; what is saved is the tree |
| IavlRange.RangeYieldsExactly | trees/src/iavl/tree.rs:671-716 | what is in range of a tree's entries is exactly the map within the bounds, once each, ascending |
| IavlRange.Range.Traverse | trees/src/iavl/tree.rs:672-707 | yields the first entry in range of what the stack stands for, ends on none, and terminates by the nodes stacked |
| IavlRange.Range.Collect | trees/src/iavl/tree.rs:710-716 | draining yields all of it |
| Hex.HexRoundTrip | trees/src/iavl/node_db.rs:158-161 | a printed hash spells that hash and nothing else |
| Hex.FromHex | store/src/store.rs:307-321 | reads exactly the text that spells 32 bytes, capitals and leading plus signs allowed |
| Hex.HexCanonicalExactly | store/src/store.rs:307-321 | text that can be read prints back as itself exactly when it has neither capitals nor signs |
| IavlTransfer.RecursiveGetAllNodes | trees/src/iavl/node_db.rs:94-116 | over any database on which the walk comes to an end: every node met, passing over missing ones, and a panic exactly if one cannot be read |
| IavlTransfer.StoredWalk | trees/src/iavl/node_db.rs:94-116 | from the root of a stored tree the walk ends, reads everything, and meets exactly the nodes of the tree |
| IavlTransfer.OneWalk | trees/src/iavl/node_db.rs:94-116 | what is met is settled by the database and the hash |
| IavlTransfer.GatheredExports | trees/src/iavl/node_db.rs:94-116 | what is gathered are exactly the reachable nodes, each under its own hash, in any order of the walk |
| IavlTransfer.GetAllNodes | trees/src/iavl/node_db.rs:81-92 | an export of exactly what was saved as the version; panics exactly for a missing or empty one |
| IavlTransfer.ImportNodes | store/src/store.rs:191-209 | in any order, exactly the named nodes are written over the database; panics exactly if one cannot be read |
| IavlTransfer.ImportStores | store/src/store.rs:191-209 | an imported export is wholly in the database, whatever was there before |
| IavlTransfer.ImportKeepsVersions | store/src/store.rs:191-216 | the receiver's versions stay, and the imported one has no record, so it can be read but not reopened |
| CacheLayers.ReadsOneMap | store/src/store.rs:165-179 | a read through both caches reads one map; promoting and committing change no read |
| CacheLayers.LastWritesDecide | store/src/store.rs:246-263 | only the last write to a key matters |
| CacheLayers.NestedTransaction | store/src/store.rs:246-263 | a transaction's writes are seen at once, dropping them restores what was read before, promoting keeps them |
| CacheLayers.SameLastWritesSameCommit | store/src/store.rs:246-296 | two blocks with the same last writes commit the same map |
| BlockWrites.IntendedCommits | store/src/store.rs:266-280 | with Case 2 as meant, flushing a block into a balanced tree with room never panics and keeps it balanced |
| BlockWrites.SteadyCommits | store/src/store.rs:266-280 | a block whose writes rotate nothing is flushed into a balanced tree with room as written too, whatever is in memory, and keeps it balanced |
| BlockWrites.OverwritesCommit | store/src/store.rs:266-280 | so is every block that only overwrites keys |
| BlockWrites.WholeWritesSafely | store/src/store.rs:266-280 | a tree wholly in memory takes every block without moving anything else |
| BlockWrites.BlockIsBlind | store/src/store.rs:266-280 | through a whole block, whose tree is empty or regular at every turn: a database whose nodes were all made before has none of the trees under way, of any of its insertions |
| BlockWrites.MeantIsRegular | store/src/store.rs:266-280 | with Case 2 as meant, the tree is regular at every turn of every block into a balanced tree with room |
| BlockWrites.CalmGoesExactly | store/src/store.rs:266-280 | as written, a block none of whose writes that go through tilts a balanced tree with room: regular at every turn, and its insertions all return and move only what is in memory exactly if none is forecast to panic and each moves only what is in memory in its turn; then the tree is balanced |
| BlockWrites.FirstBadWrite | store/src/store.rs:266-280 | a block that does not go through has a first write at which it stops |
| KvStore.KVStore.Get | store/src/store.rs:165-179 | the transaction cache, then the block cache, then the tree |
| KvStore.KVStore.Set | store/src/store.rs:181-188 | caches the write; panics exactly on an empty key |
| KvStore.KVStore.WriteThenClearTxCache | store/src/store.rs:246-258 | the loop over the sorted keys promotes the transaction |
| KvStore.KVStore.FlushForetold | store/src/store.rs:266-280 | at the latest version of an aged store, with a tree regular at every turn, the database has none of the trees of the block; and for a calm block as written the forecasts tell whether it goes through |
| KvStore.KVStore.WriteThenClearBlockCache | store/src/store.rs:266-280 | the loop over the sorted keys writes the block into the map; if the code reads straight or what moves is in memory the new tree is a function of the old one and the cache alone; as written, at the latest version of a run, it panics exactly if an insertion does or would move what is not in memory: for a calm block, exactly if a forecast in key order says so |
| KvStore.KVStore.Commit | store/src/store.rs:290-296 | everything cached is committed and saved as the next version, under its root hash; it returns exactly when the flush does wherever that is settled, and at the latest version of a run it is: for a calm block as written, by the forecasts |
| KvStore.KVStore.ProcessAllStateInfo | store/src/store.rs:191-216 | panics exactly if a name, a node or the root's name cannot be read; after an export the store reads as the exporter's tree under its own caches, and returns its root hash |
| Prefixes.ComputePrefixEndBound | store/src/store.rs:380-395 | the loop finds the end bound |
| Prefixes.PrefixRangeExact | database/src/memory.rs:55-74 | a key lies from a prefix to its end bound if and only if it starts with the prefix, runs of 255 included |
| Prefixes.PrefixStoreRangeExact | store/src/store.rs:336-354 | for all bounds, a key is in the store's range if and only if it has the prefix and its rest is in the range asked for |
| PrefixStores.PrefixStore.Get | store/src/store.rs:331-334 | reads the map seen through the prefix |
| PrefixStores.PrefixStore.Set | store/src/store.rs:409-413 | updates the map seen through the prefix, and no map seen through a prefix that does not start the full key |
| PrefixStores.PrefixStore.Range | store/src/store.rs:336-373 | exactly the committed entries under the prefix within the bounds, the prefix cut off, ascending |
| Database.MemDB.PrefixIterator | database/src/memory.rs:36-52 | exactly the entries whose keys start with the prefix, ascending, keys whole |
| Database.PrefixDB.Put | database/src/prefix.rs:25-28 | updates what is seen through the prefix |
| Database.PrefixDB.PrefixIterator | database/src/prefix.rs:42-53 | the entries under both prefixes, both cut off, ascending |
| Database.IsolationExactly | gaia-rs/src/store_keys.rs:11-12 | two databases over one store never see each other's writes if and only if neither prefix starts the other |
| SharedStores.WriterSees | database/src/prefix.rs:25-28 | a batch written through a prefix is that batch to who sees through the prefix |
| SharedStores.LocalStepIsShared | database/src/prefix.rs:25-28 | a step of one store, its writes put behind its prefix, is a step of them all, and the store sees what it would have alone |
| SharedStores.AnyStepIsShared | store/src/store.rs:44-49 | so every step a store can take on its own it can take behind its prefix |
| SharedStores.OthersUnmoved | store/src/store.rs:44-49 | a step of one store over the shared database leaves every other where it was, if no name starts another |
| SharedStores.NamedThroughout | store/src/store.rs:44-49 | the stores of a run stay the ones it began with |
| SharedStores.LocalIsRun | store/src/store.rs:38-49 | what one store sees of any run of all of them over one database is a run of its own |
| SharedStores.SharedSnapshotPersists | gaia-rs/src/store_keys.rs:11-12 | so a version one store has saved stays in the shared database as it was, whatever it and the others write |
| Database.PrefixedVersions | trees/src/iavl/node_db.rs:29-38 | over a prefixed database the versions read back are those recorded |
| Database.UnstrippedVersions | trees/src/iavl/node_db.rs:29-38 | over the bare in-memory database every version reads back as 1 |
| Merkle.SplitPointExact | trees/src/merkle.rs:34-46 | the split of n items, n at least 2, is a power of two k with k < n <= 2k |
| Merkle.AuditFolds | trees/src/merkle.rs:10-31 | every item folds along what is beside it, left before right, to the root |
| Merkle.MerkleBinding | trees/src/merkle.rs:10-31 | equal roots mean equal lists, or two hashed byte strings collide |
| AppHash.HashStoreInfos | store/src/hash.rs:42-51 | convert, sort in place, serialise, hash; no stores is a panic |
| AppHash.SortPairsSorts | store/src/hash.rs:47-48 | the sorted pairs are an ordered permutation |
| AppHash.SortedByName | store/src/hash.rs:42-48 | stores of distinct names are hashed by strictly ascending names in the byte order, however they are listed |
| AppHash.OrderDoesNotMatter | store/src/hash.rs:42-51 | the application hash is the same for every permutation of the stores |
| AppHash.AppHashBinding | store/src/hash.rs:16-51 | equal application hashes mean the same stores and root hashes, or a collision |
| MultiStores.AppHashByName | store/src/hash.rs:16-51 | the application hash is the Merkle root over the stores by ascending name, each as its name and the hash of its root hash behind their lengths |
| MultiStores.AnyListing | store/src/store.rs:112-126 | in whatever order the stores are visited, the hash is that of the roots by name |
| MultiStores.AppHashDeterminesState | store/src/store.rs:112-131 | one application hash is one state: the same tree under every store name, or a collision |
| MultiStores.MultiStore.WriteThenClearTxCaches | store/src/store.rs:99-103 | every store promotes its transaction |
| MultiStores.MultiStore.ClearTxCaches | store/src/store.rs:106-110 | every store drops its transaction |
| MultiStores.MultiStore.Commit | store/src/store.rs:112-131 | every store is committed and saved, in any order, under the application hash of their roots; where each store's commit is settled it returns exactly if all of them go through |
| MultiStores.MultiStore.CommitForetold | store/src/store.rs:112-131 | calm blocks at the latest versions settle the commit of all stores by their forecasts |
| MultiOpen.OpenStores | store/src/store.rs:38-68 | every store at the latest version recorded for it, nothing cached, under the application hash of their roots; the head version is that of the store named last, and no stores is a panic |
| MultiOpen.Reopen | store/src/store.rs:38-86 | opened again between blocks, every store has the tree that was committed, under the same head version and application hash |
| StateSync.Peer.ProcessVersionMsg | gears/src/baseapp/baseapp.rs:517-556 | answers exactly a node that is behind, with an export of every store; panics exactly if a store has nothing saved |
| StateSync.Peer.ProcessStateMsg | gears/src/baseapp/baseapp.rs:560-605 | any message not for it or not ahead changes nothing; of the others it panics exactly on no stores, a name that is no store's, or a state that cannot be read; from exports it takes over the trees, their application hash and the height |
| StateSync.Peer.Commit | gears/src/baseapp/baseapp.rs:234-256 | raises the height and commits, panicking as the multi-store does; afterwards every store is saved at that height, its latest, under the head hash |
| StateSync.Sync | gears/src/baseapp/baseapp.rs:517-605 | a node behind ends at the other's height and application hash and reads every key as the other has it committed |
| TxTypes.BalanceKeysApart | x/bank/src/keeper.rs:292-302 | balance keys of different addresses or denominations differ, and never are supply keys |
| TxTypes.GetSigners | proto-messages/src/cosmos/tx/v1beta1/tx.rs:82-104 | the loop over the messages collects the signers |
| TxTypes.SignersExactly | proto-messages/src/cosmos/tx/v1beta1/tx.rs:82-104 | every sender and a named fee payer sign, nobody else, nobody twice |
| TxTypes.SignersInOrder | proto-messages/src/cosmos/tx/v1beta1/tx.rs:82-104 | in the order of their first messages, and a payer that sends nothing last |
| BankKeeper.SendCoins | x/bank/src/keeper.rs:199-267 | the loop moves the coins in turn; what was written before a failure stays written |
| BankKeeper.MoveConserves | x/bank/src/keeper.rs:212-252 | moving a coin, to oneself too, never panics on a conserved bank and conserves it |
| BankKeeper.SendConserves | x/bank/src/keeper.rs:199-267 | so does a send, all the way or part of the way |
| BankKeeper.SendMeans | x/bank/src/keeper.rs:199-267 | a send goes through exactly when every coin could be paid at the start, and changes just the two parties' balances by just what was sent |
| Payments.PayExactly | x/bank/src/keeper.rs:199-252 | payments one after the other, whoever pays whom: all go through exactly if each is covered in its turn, and then every balance is what it was, less what it paid and plus what it got |
| BankGenesis.InitGenesis | x/bank/src/keeper.rs:78-110 | balances as listed, supplies as summed; panics exactly when a denomination leaves 256 bits |
| BankGenesis.GenesisBalances | x/bank/src/keeper.rs:85-109 | a balance is the last amount listed for it, a supply the sum of all listed |
| BankGenesis.GenesisConservesExactly | x/bank/src/keeper.rs:85-109 | balances sum to the supply if and only if no listed amount above zero is replaced by a later one |
| AuthKeeper.GetNextAccountNumber | x/auth/src/keeper.rs:122-141 | gives the stored number, zero at first, and stores the next |
| AuthKeeper.CreateNewBaseAccount | x/auth/src/keeper.rs:151-164 | a fresh account under the next number |
| AuthKeeper.CheckCreateNewModuleAccount | x/auth/src/keeper.rs:167-190 | a module account, only if there is none |
| AuthKeeper.NewNumberIsFresh | x/auth/src/keeper.rs:122-190 | account numbers stay distinct as long as the counter does not wrap |
| AuthKeeper.InitGenesis | x/auth/src/keeper.rs:88-99 | the loop stores every listed account under the next number, whatever number it came with, and then the fee collector's if there is none |
| AuthKeeper.GenesisNumbersApart | x/auth/src/keeper.rs:88-99 | every genesis account has a number of its own, repeated addresses or not |
| AnteHandler.DeductFeeHandler | gears/src/baseapp/ante.rs:158-180 | the fee from the payer to the fee collector, whose account is created first |
| AnteHandler.SetPubKeyHandler | gears/src/baseapp/ante.rs:182-222 | the loop sets missing keys, and refuses a key that is not the signer's |
| AnteHandler.SigVerificationHandler | gears/src/baseapp/ante.rs:224-291 | the loop checks every signer's sequence and signature |
| AnteHandler.IncrementSequenceHandler | gears/src/baseapp/ante.rs:293-308 | the loop raises the signers |
| AnteHandler.Run | gears/src/baseapp/ante.rs:65-156 | all handlers in order, up to the first that refuses |
| AnteExact.AnteExactly | gears/src/baseapp/ante.rs:65-308 | on a sound state a transaction passes exactly if its signatures count, it is in time, its memo fits, the payer's account is there and covers the fee, every key given is its signer's, and every signer's sequence is the account's and its signature valid under the stored or given key; it panics exactly if all this holds up to a signature whose key is missing or malformed |
| AnteExact.AnteLeaves | gears/src/baseapp/ante.rs:158-308 | then the fee is paid, each signer has its key and the next sequence, the fee collector an account, and nothing else has changed |
| BaseApp.SendCoinsFromAccountToAccount | x/bank/src/keeper.rs:182-197 | a send, then an account for a receiver without one |
| BaseApp.RunTx | gears/src/baseapp/baseapp.rs:398-479 | after an ante failure the stores are untouched, after a message failure exactly the ante effects remain, on success all; no block header is a panic |
| Settlement.TxEndsExactly | gears/src/baseapp/baseapp.rs:398-479 | a transaction succeeds exactly if it is admissible and fee and messages are covered in turn, fails in a message exactly if admissible but not covered, and panics exactly over a signature |
| Settlement.TxSettlesBalances | gears/src/baseapp/baseapp.rs:398-479 | after a success every balance is less what it sent and more what was sent to it, fee included; after a failed message the fee alone has moved; otherwise nothing |
| Settlement.TxSettlesAccounts | x/bank/src/keeper.rs:182-197 | a receiver of a success that had no account has a fresh one, signers have their keys and next sequences, and no other account changes |
| ChainRuns.AnteRaises | gears/src/baseapp/ante.rs:224-308 | a transaction that passes carries every signer's sequence and raises each by exactly one, and nobody else's |
| ChainRuns.MessagesKeepSequences | x/bank/src/keeper.rs:182-197 | messages change nobody's sequence |
| ChainRuns.TxConserves | gears/src/baseapp/baseapp.rs:398-452 | a transaction, however it ends, conserves every denomination and its supply |
| ChainRuns.TxPanicsExactly | gears/src/baseapp/baseapp.rs:398-452 | a transaction panics on a sound state exactly if it has messages and there is no block header or the ante handler panics: never over coins or balances |
| ChainRuns.UnkeyedSignerPanics | gears/src/baseapp/ante.rs:267-270 | a lone signer with the right sequence, no stored key and none given is a panic |
| ChainRuns.GenesisStartsExactly | gaia-rs/src/handler.rs:57-64 | the two modules' genesis is a sound start exactly when the listed balances replace nothing |
| ChainRuns.RunConserves | x/bank/src/keeper.rs:199-267 | in every state of every run the balances of each denomination sum to the genesis supply, so no addition leaves 256 bits |
| ChainRuns.SequenceCounts | gears/src/baseapp/ante.rs:293-308 | a sequence counts the passed transactions its account signed, and nothing else moves it |
| ChainRuns.UsedOnce | gears/src/baseapp/ante.rs:244-255 | a transaction passes the ante handler at most once within 2^64 operations |
| DecimalPower.CheckedPow | proto-types/src/decimal256.rs:270-300 | the loop computes the squarings and products with their three outcomes |
| DecimalPower.PowSound | proto-types/src/decimal256.rs:270-300 | a power never exceeds the exact one, and one whose exact value fits is never refused |
| DecimalClose.MulIsFloor | proto-types/src/decimal256.rs:248-259 | a product is the exact one cut to the unit below, and an overflow exactly past 256 bits |
| DecimalClose.SmallPowers | proto-types/src/decimal256.rs:270-300 | the first power is the number, the second the square cut to the unit below |
| DecimalClose.PowClose | proto-types/src/decimal256.rs:270-300 | a power that is given is short of the exact one by at most as many units as the exponent, each multiplied by the power of a base above one |
| DecimalClose.SmallPowClose | proto-types/src/decimal256.rs:270-300 | for a base of at most one it is always given, within as many units as the exponent and never above |
| DecimalPower.WholePower | proto-types/src/decimal256.rs:270-300 | whole numbers' powers are exact, and given exactly when they fit |
| DecimalPower.PowersOfTwoNeverPanic | proto-types/src/decimal256.rs:281-292 | for exponents that are powers of two the unchecked last product never panics |
| DecimalPanics.PowFailsExactly | proto-types/src/decimal256.rs:270-300 | a power is an overflow exactly when a squaring is, and a panic exactly when the squarings fit and the last product does not; never for a base of at most one |
| DecimalPanics.WholePanicsExactly | proto-types/src/decimal256.rs:281-292 | a whole number's power panics exactly when it does not fit but the power to the exponent's highest bit does |
| DecimalPanics.TopIsHighest | proto-types/src/decimal256.rs:281-290 | what is squared is raised to the highest power of two in the exponent |
| DecimalPower.LastProductPanics | proto-types/src/decimal256.rs:292-292 | a cube that panics in the last product, whose fourth power is reported as an overflow |
| DecimalRoot.Sqrt | proto-types/src/decimal256.rs:316-341 | the root at the highest precision up to nine whose scaling fits 256 bits: a multiple of its unit u with r*r <= a*10^18 < (r + u)^2; where the full precision fits, the root itself cut to 18 places |
| DecimalRoot.OnePrecision | proto-types/src/decimal256.rs:322-329 | every decimal has exactly one such precision |
| DecimalRoot.RootBounds | proto-types/src/decimal256.rs:335-341 | the bounds at any precision that fits, and the last product stays within 256 bits |
| DecimalText.Parse | proto-types/src/decimal256.rs:434-473 | reads a text as a decimal exactly if it spells that decimal in range, and panics exactly if it is overlong; every decimal as printed reads back |
| DecimalText.ParsesExactly | proto-types/src/decimal256.rs:434-473 | the texts that read as a decimal: a number, or two around a dot, worth that decimal by the second's length cut to 32 bits, at most 18; a number is digits after at most one plus |
| DecimalText.DecimalRoundTrip | proto-types/src/decimal256.rs:434-495 | every 256-bit decimal, printed and parsed, is itself |
| DecimalShortest.DisplayShortest | proto-types/src/decimal256.rs:475-495 | no text that spells a decimal is shorter than the printed one |
| DecimalText.PanicsExactly | proto-types/src/decimal256.rs:445-466 | the parser panics exactly if the whole part fits, the fraction is a number whose length cut to 32 bits is at most 18, and scaled by that length it leaves 256 bits; that takes a fraction of 2^32 characters |
| DecimalText.ParseNeverPanics | proto-types/src/decimal256.rs:445-466 | so no text below four gigabytes makes it panic |
| DecimalText.LongTextPanics | proto-types/src/decimal256.rs:448-466 | one of four gigabytes does: its length, cut to 32 bits, is none |

## Left out

- IavlInsert.RecursiveSet: nodes are values that the method returns where the program rewrites them through references; shared pointers and their uniqueness checks are not modelled.
- IavlInsert.RecursiveSet: as written, where a rotation reads a stale hash and the database does hold a node under it, only contents, order and hashes are promised, not the measures or the exact tree; `IavlFresh.FreshIsBlind` says that at the latest version of a run, from a balanced tree, it holds none.
- IavlTree.Tree.SaveVersion: that a saved version is the tree and earlier ones stay is stated for hashes without collisions among the byte strings hashed so far.
- IavlTransfer.RecursiveGetAllNodes: on a database with a cycle of hashes the program would not end.
- BlockWrites.CalmGoesExactly: as written, blocks with a write that goes through and leaves the tree tilted are not foretold beyond that write.
- MultiStores.MultiStore.Commit: each store has its own node database here, in `MultiOpen` too; that behind prefixes of one shared database it makes no difference is `SharedStores.LocalIsRun`.
- IavlFresh.NextInsertExactly: not stated after opening a version older than the latest, where the nodes of the replayed versions are already in the database.
- BaseApp.RunTx: the parameter store is an input (the memo limit), as no transaction writes it; events and locks are not modelled, and after a panic nothing is promised.
- AuthKeeper.NewNumberIsFresh: stated per account created; runs do not bound the number of accounts.
- StateSync.Peer.ProcessStateMsg: what the stores hold afterwards is stated for messages that are exports of search trees; what any other message writes is `IavlTransfer.ImportNodes`.
- Node bytes that do not decode are read like a missing node where the caller panics on either; the walk of an export, which passes over missing ones, tells them apart.
- Ranges over uncommitted cache entries: the program does not cover them.
- Relaying or reopening an imported version: no root record is written for it.
- Names of stores that start one another, or repeat, are excluded where stores share a database.
- Chain parameters, queries, pagination, denomination and coin-list parsing, bech32, and the message and block encodings.
- SHA-256, RIPEMD-160, secp256k1 and protobuf themselves, networking, locks, the ABCI server, REST, the command line and RocksDB.
- The simple `Decimal256` wrappers: percent, permille, saturating forms, operators, ratios and rounding.
