# Verified model of the btree_lab storage stack

This project models the four layers of `btree_lab` in EECS339: a simulated disk, a
write-back buffer cache over it, the byte format of tree nodes, and the B+tree index
(block allocator, mounting, lookup, sorted display) that reads and writes those nodes
through the cache. The layers are modelled on top of each other, as in the source, so
that the main results hold while the cache evicts blocks underneath the index.

Run `dafny verify dfyconfig.toml` to check everything.

## How it is built

Code that updates objects in place is a class with the source's fields and methods
(`DiskSystem`, `BufferCache`, `BTreeNode`, `BTreeIndex`). Each class has a ghost
function giving its abstract value, and each method is proved to compute a function of
the old value. What the source promises is then proved about those functions.

| file | layer |
|---|---|
| `Base.dfy` | 32-bit sizes, bytes, error codes, byte order of keys, integer arithmetic |
| `DiskLatency.dfy` | the latency model and sequences of requests |
| `Bitmap.dfy`, `Disk.dfy` | allocation bitmap, block transfers, class `DiskSystem` |
| `CacheModel.dfy` | one call of the cache as a function from state to state |
| `CacheRefinement.dfy` | the cache against a plain array of blocks |
| `CacheRuns.dfy` | resident bound, clock and counters over whole runs |
| `CacheCounters.dfy` | what each call counts, asks of the disk and leaves resident, exactly |
| `CacheReplacement.dfy` | replacement order, LRU, working sets that fit |
| `BufferCache.dfy` | class `BufferCache` |
| `NodeLayout.dfy`, `BTreeNode.dfy` | node format, class `BTreeNode` |
| `FreeList.dfy` | the free chain and runs of the allocator |
| `TreeModel.dfy` | the tree, descent, traversal, the map they share, the leaf scan of Insert |
| `SharedBlocks.dfy` | which stored trees use a block twice |
| `LeafGraft.dfy` | one leaf replaced, in the tree and on the volume |
| `IndexState.dfy`, `BTreeIndex.dfy` | nodes through the cache, class `BTreeIndex` |
| `StorageStack.dfy` | results across layers |

## What is proved

- **The cache is an array.** For every run of reads, writes, flushes and detaches, of
  any block numbers, the answers are those of an array of blocks; a Detach then leaves
  that array on the disk, and it fails exactly when something was written past the end.
- **Its accounts are right.** On every run the clock is the sum of the request times,
  the head is where the last request left it and every counter is exact, refused
  requests included. A Detach saves every block on the disk even when it fails.
- **Replacement.** The documentation calls the cache LRU (`btree_lab/README:132`,
  `btree_lab/buffercache.h:21`). It is not: hits do not advance the clock, and ties go to
  the smallest block number. The victim is the least recently used block exactly when
  the disk served a request between its last touch and that of every smaller resident
  block; a counterexample and the weaker guarantee that always holds are proved too.
- **The resident bound is exact.** On any run the cache stays within max(cachesize, 1)
  blocks if and only if no call brings in a new block while the victim lies past the end.
- **The allocator is a stack.** On every legal run it answers as a stack of block
  numbers, and the chain, the bitmap, the superblock copy and block 0 stay consistent.
  A fresh index is consistent exactly when it has three blocks and no stale marks.
  `RunAllocator` performs any such run through the cache with the same result.
- **Lookup and display agree on one map.** Both are proved against the finite map held
  by the leaves, and both leave the cache exactly as the block reads of their path or
  traversal would, so the results about cache runs apply to them.
- **The volume determines the tree**, and a traversal reads each block once exactly when
  the empty nodes of the tree lie in different blocks.
- **A correct insertion into a leaf** is an insertion into the map of the whole index,
  down to the blocks, exactly when no other pointer names the leaf's block.
- **Nothing interferes.** Allocator runs do not disturb trees, and unmounting and
  mounting again with another cache size gives back the same volume.

Where the source departs from its own documentation or intent, the model follows the
source: unsigned wrap-around of the rotational wait with several heads
(`SectorHopWraps`), the empty request at block 0 that takes the head off the disk
(`HeadStaysIff`), the tie rule of the cache (`NotLeastRecentlyUsed`), writes past the
end that stick (`OutOfRangeBlockSticks`) and can break the resident bound
(`ResidentIsBoundedIff`), the index of one or two blocks (`FormatIsConsistentIff`,
`Attach`), the promoted key of a split (`PromotedKeyIsLost`), the insertion point of the
leaf scan (`InsertScanIsRightIff`) and the shift loop that runs before the key count is
raised (`PlacingAsWrittenAsserts`).

## Conventions

- `double` is `real`. Header words are little-endian, as on the x86 machines the lab
  targets; `nodetype` is carried as its 32-bit word.
- Block numbers passed to the cache are below 2^32 - 1, so that "number + 1" does not
  wrap in the range checks. Counters do not overflow.
- A cached block has the disk's block size, and keys and values have the sizes the index
  was created with; the source copies and compares that many bytes without checking.
- `DiskState.log` is a history variable: the requests served so far.
- A legal run of the allocator writes and frees only blocks it was given, writes a live
  node type to a block before freeing it, and never frees the superblock or the root.
  The source asserts the node types and leaves the rest to its callers.
- `Serialize` leaves part of a block uninitialised for nodes without data. The model
  keeps those bytes arbitrary (`fill`).

## Model

| member | source | states |
|---|---|---|
| Base.LessIsFirstDifference | btree_lab/block.cc:91-94 | keys compare by their first differing byte, as unsigned bytes, a proper prefix first |
| DiskLatency.BlockPosition | btree_lab/disksystem.cc:379-383 | blocks are numbered sector by sector, track by track |
| DiskLatency.HeadIsLastBlock | btree_lab/disksystem.cc:409-410 | a request leaves the head at its last block |
| DiskLatency.HeadStaysIff | btree_lab/disksystem.cc:382-410 | a request within the disk, empty ones included, leaves the head on the disk if and only if it is not the empty request at block 0 |
| DiskLatency.SeekIsCheaper | btree_lab/disksystem.cc:385-391 | which seek formula is the cheaper depends on the geometry only, and gives hop times the track seek or 2 hop / numtracks times the average seek |
| DiskLatency.TurnIsShare | btree_lab/disksystem.cc:397-408 | passing sectors takes their share of a rotation |
| DiskLatency.SectorHopIs | btree_lab/disksystem.cc:396 | the wait for every pair of sectors, the wrapped ones included |
| DiskLatency.AccessAddsUp | btree_lab/disksystem.cc:376-413 | from its first sector a request costs track switches and transfer; from any head position seek and wait come on top and nothing else |
| DiskLatency.SectorHopIsModularIff | btree_lab/disksystem.cc:396 | the rotational wait is the modular sector distance if and only if the sectors are within a track of each other |
| DiskLatency.SectorHopWraps | btree_lab/disksystem.cc:396 | with four heads a backward hop waits for 2^32 - 1 sectors |
| DiskLatency.AccessIsPositive | btree_lab/disksystem.cc:376-413 | every in-range request takes positive time and leaves the head on the disk |
| DiskLatency.AccessIsBounded | btree_lab/disksystem.cc:376-413 | with one head the wait is modular and the time is below seek, rotation, track switches and transfer |
| DiskLatency.SplitInsideTrack | btree_lab/disksystem.cc:376-413 | splitting a request inside a track costs exactly one sector time and ends at the same head state |
| DiskLatency.SplitAtTrackEdge | btree_lab/disksystem.cc:376-413 | splitting at a track edge trades the track switch for a seek plus the wait for the next sector |
| DiskLatency.CutsCostOneSectorEach | btree_lab/disksystem.cc:376-413 | any way of cutting a one-track request costs one sector time per cut |
| DiskLatency.TotalTimeAppend | btree_lab/disksystem.cc:409-412 | request times add up along a sequence, each starting where the head was left |
| DiskLatency.ServingTakesTime | btree_lab/disksystem.cc:406-412 | any non-empty list of in-range requests takes positive time |
| Bitmap.BitOfWeight | btree_lab/disksystem.cc:520 | the bit of a block is the bit of weight 128 / 2^(block mod 8) in its byte |
| Bitmap.SetAddsOne | btree_lab/disksystem.cc:520-522 | setting a bit adds exactly one number to the set the bytes stand for |
| Bitmap.ClearRemovesOne | btree_lab/disksystem.cc:520-522 | clearing a bit removes exactly one number |
| Bitmap.ByteInBounds | btree_lab/disksystem.cc:327 | every block's bit lies inside the numblocks/8 (+1) bytes, and there are no more bytes than needed |
| Disk.DiskSystem.constructor | btree_lab/disksystem.cc:283-366 | a created disk reuses the data, with a clear bitmap and the head at home |
| Disk.SpliceIs | btree_lab/disksystem.cc:458-471 | a write of several blocks puts each block of the range in its place and leaves every other block |
| Disk.DiskSystem.ModelAccess | btree_lab/disksystem.cc:376-413 | takes the time of the latency model from the old head position and leaves the head at the end of the request |
| Disk.DiskSystem.Read | btree_lab/disksystem.cc:416-445 | returns the blocks of the range, or refuses an out-of-range request without any change |
| Disk.DiskSystem.Write | btree_lab/disksystem.cc:447-474 | each block of the range becomes its input and every other block stays, or the request is refused without any change |
| Disk.DiskSystem.ReadOne | btree_lab/disksystem.cc:477-490 | one-block read |
| Disk.DiskSystem.WriteOne | btree_lab/disksystem.cc:492-505 | one-block write |
| Disk.DiskSystem.IsBlockAllocated | btree_lab/disksystem.cc:525-528 | the bit of a block is its membership in the marked set |
| Disk.DiskSystem.NotifyAllocateBlocks | btree_lab/disksystem.cc:531-549 | adds exactly the range to the marked set, padding bits included, or refuses without any change |
| Disk.DiskSystem.NotifyDeallocateBlocks | btree_lab/disksystem.cc:551-569 | removes exactly the range, or refuses without any change |
| CacheModel.VictimExists | btree_lab/buffercache.cc:15-28 | a non-empty cache always has a block with the least time stamp, smallest number among equals |
| CacheModel.VictimUnique | btree_lab/buffercache.cc:15-28 | and only one such block |
| CacheRefinement.EvictKeeps | btree_lab/buffercache.cc:3-43 | eviction keeps the invariant and the view, and only removes entries |
| CacheRefinement.ReadKeeps | btree_lab/buffercache.cc:131-168 | a read answers from the view and leaves it unchanged, on hits, misses and refusals |
| CacheRefinement.WriteKeeps | btree_lab/buffercache.cc:170-198 | a write changes the view at one block only |
| CacheRefinement.FlushKeeps | btree_lab/buffercache.cc:206-230 | a flush leaves the view unchanged and fails exactly for a resident block past the end |
| CacheRefinement.WriteBackAllKeeps | btree_lab/buffercache.cc:71-85 | the write-back loop of Detach keeps the view at every prefix |
| CacheRefinement.DetachKeeps | btree_lab/buffercache.cc:67-88 | Detach succeeds if and only if every resident block is on the disk; then the disk holds the view |
| CacheRefinement.CacheRefinesArray | btree_lab/buffercache.cc:67-230 | every run answers as an array of blocks does and ends in that array |
| CacheRefinement.SizeIsInvisible | btree_lab/buffercache.cc:45-50 | cache size and contents never show in an answer |
| CacheRefinement.DetachMakesDurable | btree_lab/buffercache.cc:67-88 | after any run from an attached cache Detach leaves the array on the disk, if and only if nothing was written past the end |
| CacheRuns.ResidentIsBounded | btree_lab/buffercache.cc:11-13 | on in-range runs at most max(cachesize, 1) blocks are resident |
| CacheRuns.DetachWritesDirtyOnce | btree_lab/buffercache.cc:67-88 | Detach writes each dirty block once, in ascending order, and nothing else |
| CacheRuns.CountersAreHonest | btree_lab/buffercache.cc:28-230 | disk writes plus dirty blocks never exceed writes, disk reads never exceed reads, both are the true request counts, the clock is their time |
| CacheRuns.ClockIsSumOfRequests | btree_lab/buffercache.cc:131-230 | on every run, refusals included, the clock advances by the time of the requests served |
| CacheCounters.EvictTakesVictim | btree_lab/buffercache.cc:3-43 | eviction takes the victim and no other block, asks the disk for one write if the victim is dirty, and counts a refused one |
| CacheCounters.AccessResidents | btree_lab/buffercache.cc:131-198 | a read or write keeps every entry but its own and, on a miss, the victim |
| CacheCounters.FlushResidents | btree_lab/buffercache.cc:206-230 | a flush keeps every entry but its own |
| CacheCounters.StepServes | btree_lab/buffercache.cc:131-230 | the exact disk requests of a read, write or flush; none for a hit or the flush of an absent block |
| CacheCounters.DetachServes | btree_lab/buffercache.cc:67-88 | a Detach, failing or not, writes each dirty block that lies on the disk once, in ascending order |
| CacheCounters.DetachSaves | btree_lab/buffercache.cc:67-88 | after a Detach, even a failing one, the disk holds what the cache answered for each of its blocks |
| CacheCounters.StepCounts | btree_lab/buffercache.cc:28-230 | every counter after one call, exactly |
| CacheCounters.RunCounts | btree_lab/buffercache.cc:28-230 | on every run, refused calls included: writes count the writes asked for, reads the reads answered, disk reads the read requests and refused reads, disk writes the write requests and refused write-backs |
| CacheReplacement.NewerOutlives | btree_lab/buffercache.cc:7-24 | along a run the block stamped later outlives the one stamped earlier |
| CacheReplacement.ClockMovesIff | btree_lab/buffercache.cc:28-230 | the clock moves if and only if a disk request was served |
| CacheReplacement.LaterTouchOutlives | btree_lab/buffercache.cc:137-142 | when a disk request was served between the last touch of one block and the end of a later touch of another, its own fetch included, the later block is never given up first |
| CacheReplacement.RunStampsFollowTouches | btree_lab/buffercache.cc:137-196 | time stamps never contradict the order of touches |
| CacheReplacement.StampIsTouchTime | btree_lab/buffercache.cc:137-196 | after every run a resident block carries the time at which the run last touched it |
| CacheReplacement.TieMeansNoRequest | btree_lab/buffercache.cc:137-196 | two blocks tie if and only if no disk request was served between their last touches |
| CacheReplacement.VictimIsLruIff | btree_lab/README:131-133 | the victim is the least recently used block if and only if the disk served a request between its last touch and the last touch of every smaller resident block |
| CacheReplacement.NotLeastRecentlyUsed | btree_lab/README:131-133 | a two-block run whose victim is not the least recently used block |
| CacheReplacement.OutOfRangeBlockSticks | btree_lab/buffercache.cc:183-196 | a block written past the end stays resident until Attach and makes Detach fail |
| CacheReplacement.StepExceedsIff | btree_lab/buffercache.cc:3-43 | a call takes the cache past its bound if and only if it brings in a new block while the cache is full and its victim lies past the end |
| CacheReplacement.ResidentIsBoundedIff | btree_lab/buffercache.cc:3-43 | on every run, out-of-range calls included, the bound holds throughout if and only if no call is of that kind |
| CacheReplacement.ResidentBoundNeedsRange | btree_lab/buffercache.cc:183-196 | the smallest run that breaks the bound: on every empty cache of size 1, one block past the end and then block 0 |
| CacheReplacement.FittingRunNeverEvicts | btree_lab/buffercache.cc:10-13 | a run over at most cachesize blocks fetches the first-read blocks, writes nothing and keeps everything |
| CacheReplacement.FittingRunThenDetach | btree_lab/buffercache.cc:67-88 | and the Detach writes each block ever written once |
| BufferCaches.FindOldest | btree_lab/buffercache.cc:7-24 | the scan finds, in every non-empty map, the block with the least time stamp and among equals the smallest number |
| BufferCaches.BufferCache.constructor | btree_lab/buffercache.cc:45-50 | an empty cache with clock and counters at zero |
| BufferCaches.BufferCache.CheckDeleteOldest | btree_lab/buffercache.cc:3-43 | a cache that is full gives up exactly its victim, written back first when dirty; a refused victim stays |
| BufferCaches.BufferCache.Attach | btree_lab/buffercache.cc:61-65 | empties the cache |
| BufferCaches.BufferCache.Detach | btree_lab/buffercache.cc:67-88 | leaves the view unchanged; failing or not the disk then holds the old view of each of its blocks; on success the cache is empty and nothing lies past the end |
| BufferCaches.BufferCache.ReadBlock | btree_lab/buffercache.cc:131-168 | answers with the view of the block and leaves the view unchanged, refusing exactly the blocks outside it; counts one read if answered; state and clock are those of the read step |
| BufferCaches.BufferCache.WriteBlock | btree_lab/buffercache.cc:170-198 | changes the view at exactly this block and counts one write; state and clock are those of the write step |
| BufferCaches.BufferCache.FlushBlock | btree_lab/buffercache.cc:206-230 | leaves the view unchanged and, on success, exactly this block is no longer resident |
| BufferCaches.BufferCache.NotifyAllocateBlock | btree_lab/buffercache.cc:112-116 | marks one block, or reports ERROR_NOSUCHBLOCK past the end; the call is counted either way |
| BufferCaches.BufferCache.NotifyDeallocateBlock | btree_lab/buffercache.cc:118-122 | unmarks one block, or reports ERROR_NOSUCHBLOCK past the end; the call is counted either way |
| NodeLayout.WordsRoundTrip | btree_lab/btree_ds.cc:104 | words written to bytes are read back |
| NodeLayout.DecodedFields | btree_lab/btree_ds.cc:113-140 | what the bytes of any block mean: seven little-endian words at offsets 0 to 24, then the data of every type but 0 and 1 |
| NodeLayout.EncodedFields | btree_lab/btree_ds.cc:98-110 | the bytes a serialized node puts at those offsets |
| NodeLayout.HeaderLayout | btree_lab/btree_ds.h:27-34 | the seven header fields lie in struct order, four bytes each |
| NodeLayout.NodeRoundTrip | btree_lab/btree_ds.cc:98-140 | Unserialize after Serialize restores header and data for every node type |
| NodeLayout.SlotCountIsCapacity | btree_lab/btree_ds.cc:13-28 | a node fits its data area if and only if its key count is at most the slot count |
| NodeLayout.CellsInside | btree_lab/btree_ds.cc:143-196 | every slot lies inside the data area |
| NodeLayout.CellsApart | btree_lab/btree_ds.cc:143-196 | different slots never share a byte |
| NodeLayout.CellsAdjoin | btree_lab/btree_ds.h:49-58 | slots follow one another in the documented order without gaps |
| NodeLayout.LeafBytes | btree_lab/btree_ds.cc:143-196 | pair i of a leaf lies at byte 32 + i (keysize + valuesize) of its block, key first |
| NodeLayout.InnerBytes | btree_lab/btree_ds.cc:143-176 | pointer i of an interior node lies at byte 28 + i (4 + keysize) of its block, little-endian, followed by key i |
| NodeLayout.SetThenGet | btree_lab/btree_ds.cc:199-290 | each Set is read back by its Get and changes no other slot |
| NodeLayout.SetKeyEffect | btree_lab/btree_ds.cc:250-261 | SetKey replaces one key and nothing else |
| NodeLayout.SetPtrEffect | btree_lab/btree_ds.cc:264-275 | SetPtr replaces one pointer and nothing else, in interior nodes and in the one pointer slot of a leaf |
| NodeLayout.SetValEffect | btree_lab/btree_ds.cc:279-290 | SetVal replaces one value and nothing else |
| NodeLayout.ShiftIsCountedIff | btree_lab/btree.cc:546-551 | the slots the shift loop writes before the key count is raised are valid if and only if there is nothing to shift |
| BTreeNodes.BTreeNode.constructor | btree_lab/btree_ds.cc:59-73 | a new node with zeroed data where its type has data |
| BTreeNodes.BTreeNode.ResolveKey | btree_lab/btree_ds.cc:143-158 | the key slot, or nothing for other node types |
| BTreeNodes.BTreeNode.ResolvePtr | btree_lab/btree_ds.cc:161-176 | the pointer slot |
| BTreeNodes.BTreeNode.ResolveVal | btree_lab/btree_ds.cc:180-190 | the value slot |
| BTreeNodes.BTreeNode.GetKey | btree_lab/btree_ds.cc:199-210 | returns the key of the slot, or ERROR_NOMEM |
| BTreeNodes.BTreeNode.GetPtr | btree_lab/btree_ds.cc:212-222 | returns the pointer of the slot |
| BTreeNodes.BTreeNode.GetVal | btree_lab/btree_ds.cc:224-235 | returns the value of the slot |
| BTreeNodes.BTreeNode.GetKeyVal | btree_lab/btree_ds.cc:238-247 | returns the pair of the slot |
| BTreeNodes.BTreeNode.SetKey | btree_lab/btree_ds.cc:250-261 | changes exactly one slot of the buffer in place, or reports ERROR_NOMEM and changes nothing |
| BTreeNodes.BTreeNode.SetPtr | btree_lab/btree_ds.cc:264-275 | changes exactly one slot of the buffer in place, or reports ERROR_NOMEM and changes nothing |
| BTreeNodes.BTreeNode.SetVal | btree_lab/btree_ds.cc:279-290 | changes exactly one slot of the buffer in place, or reports ERROR_NOMEM and changes nothing |
| BTreeNodes.BTreeNode.SetKeyVal | btree_lab/btree_ds.cc:293-302 | replaces one pair of a leaf; an interior node keeps the key it wrote before failing |
| BTreeNodes.BTreeNode.InsertPair | btree_lab/btree.cc:546-555 | the shift loop inserts exactly one pair at the offset and keeps the others in order |
| BTreeNodes.BTreeNode.Serialize | btree_lab/btree_ds.cc:98-110 | one block of the cache becomes header plus data of the node; the bytes of a node without data are arbitrary |
| BTreeNodes.BTreeNode.Unserialize | btree_lab/btree_ds.cc:113-140 | becomes the node the block decodes to; on a failed read header and data stay as they were |
| FreeList.ChainAcyclic | btree_lab/btree.cc:64-79 | a free chain that ends at 0 never visits a block twice |
| FreeList.ChainUnique | btree_lab/btree.cc:64-79 | the head determines the chain |
| FreeList.Conservation | btree_lab/btree.cc:157-172 | free and live blocks partition the volume and their numbers add up |
| FreeList.AllocateKeeps | btree_lab/btree.cc:62-84 | allocation pops the chain, marks a block that was not live, and keeps every invariant |
| FreeList.DeallocateKeeps | btree_lab/btree.cc:86-107 | freeing pushes the block and keeps every invariant |
| FreeList.StampKeeps | btree_lab/btree.cc:92 | writing a live node to a live block keeps every invariant |
| FreeList.PerformFrame | btree_lab/btree.cc:62-107 | a call changes the free head of the superblock and the block it names, and nothing else of the superblock or any other block |
| FreeList.FormatHeaders | btree_lab/btree.cc:123-171 | the headers of a fresh index: root block 1, free block 2 and the given key and value size in the superblock, root and every free block |
| FreeList.FormatIsConsistentIff | btree_lab/btree.cc:116-173 | a fresh index on a disk of any size is consistent if and only if it has three blocks and no stale marks |
| FreeList.AllocatorIsStack | btree_lab/btree.cc:62-107 | every legal run answers as a stack and keeps chain, marks, superblock and block 0 consistent |
| FreeList.RunKeepsSuper | btree_lab/btree.cc:62-107 | through every legal run the superblock keeps root and sizes; its free head is the top of the stack |
| FreeList.RunKeepsBlock | btree_lab/btree.cc:62-107 | a block no call writes or frees keeps its node |
| FreeList.LiveIsNotHandedOut | btree_lab/btree.cc:62-107 | on every legal run a marked block that the run does not free is never returned by it and stays marked |
| FreeList.FreedIsNext | btree_lab/btree.cc:62-107 | a freed block is the next one returned, with chain and marks restored |
| FreeList.RoundTripRestoresChain | btree_lab/btree.cc:62-107 | allocate, write, free restores chain, marks and superblock |
| FreeList.AllocateAll | btree_lab/btree.cc:62-84 | allocations return the chain in order, then report no space without any change |
| FreeList.FreshIndexCapacity | btree_lab/btree.cc:157-172 | a fresh index of N blocks gives exactly N - 2 allocations, 2, 3, ... in order |
| TreeModel.ChildPassesBelow | btree_lab/btree.cc:209-237 | the scan passes exactly the separators below the key; an equal one sends it left |
| TreeModel.FindInIsFirst | btree_lab/btree.cc:247-268 | the leaf scan answers with the first slot that holds the key, in any leaf |
| TreeModel.LookupIsMapLookup | btree_lab/btree.cc:203-268 | lookup by descent is lookup in the finite map of the leaves |
| TreeModel.FindIsMember | btree_lab/btree.cc:203-268 | lookup finds exactly the stored pairs and meets no foreign or missing block in a well-ordered tree |
| TreeModel.OtherChildrenLackKey | btree_lab/btree.cc:209-237 | only the child picked by the separator scan can hold the key |
| TreeModel.EntriesSorted | btree_lab/btree.cc:662-687 | a traversal meets the keys in strictly increasing order |
| TreeModel.ShowIsComplete | btree_lab/btree.cc:662-700 | on a well-ordered tree the traversal runs to the end, reads the blocks in preorder and emits every pair |
| TreeModel.DisplayMatchesLookup | btree_lab/btree.cc:628-703 | the display emits exactly the pairs lookup can find |
| TreeModel.PlacedIsSortedIff | btree_lab/btree.cc:542-555 | a placed pair keeps a leaf sorted if and only if its offset separates smaller from larger keys |
| TreeModel.PlacedIsFound | btree_lab/btree.cc:546-555 | after a correct placement the leaf holds the new pair and every old one |
| TreeModel.ScanStops | btree_lab/btree.cc:529-542 | where the scan stops in a sorted leaf: nowhere, at the first slot or at the last |
| TreeModel.InsertScanIsRightIff | btree_lab/btree.cc:529-555 | the scan of Insert places the pair so that a sorted leaf stays sorted if and only if the leaf holds one pair and the new key lies below it |
| TreeModel.StoppingBelowMisplaces | btree_lab/btree.cc:542 | the first of the scan's two stop conditions, at whatever slot, never keeps the leaf sorted |
| TreeModel.StoppingLastMisplaces | btree_lab/btree.cc:542 | nor does the second, in a leaf of several pairs none of which is below the new key |
| TreeModel.PlacingAsWrittenAsserts | btree_lab/btree.cc:542-555 | wherever the scan stops, the shift loop as written meets a slot that fails its assertion |
| TreeModel.SplitIsWellOrderedIff | btree_lab/btree.cc:209-237 | a split leaf is well ordered if and only if the separator is at least the last left key and below the first right key |
| TreeModel.PromotedKeyIsLost | btree_lab/btree.cc:594-597 | promoting the first key of the right half makes that key unfindable, for every leaf and split point |
| TreeModel.StoredFrame | btree_lab/btree_ds.cc:98-110 | writing blocks outside a tree leaves it stored |
| SharedBlocks.StoredUnique | btree_lab/btree_ds.cc:113-140 | two trees stored under one address are equal: the volume determines the tree |
| SharedBlocks.PathDistinct | btree_lab/btree.cc:185-277 | a lookup in any stored tree never reads a block twice |
| SharedBlocks.ShowIsScan | btree_lab/btree.cc:628-703 | the recursive traversal of any tree equals a scan of its nodes in order |
| SharedBlocks.ShowStopsAtForeign | btree_lab/btree.cc:628-703 | a traversal of any tree reads in preorder up to the first block that is no tree node or lies past the end and returns its error; it succeeds if and only if there is none |
| SharedBlocks.RepeatedBlockIsEmpty | btree_lab/btree.cc:662-687 | a block that a traversal of a well-ordered tree meets twice has no entries below it |
| SharedBlocks.PreorderDistinctIff | btree_lab/btree.cc:628-703 | the traversal of a well-ordered tree reads each block once if and only if its empty nodes lie in different blocks |
| SharedBlocks.PreorderDistinct | btree_lab/btree.cc:628-703 | with no empty node below the root each block is read once |
| SharedBlocks.SharedLeafIsReadTwice | btree_lab/btree.cc:628-703 | an empty leaf on both sides of a separator is read twice |
| SharedBlocks.SharedLeafExists | btree_lab/btree_ds.cc:113-140 | for every key and every block with room there is a volume that stores that tree |
| LeafGraft.GraftIsInsertion | btree_lab/btree.cc:546-555 | a new key placed in the leaf its own lookup ends at, between smaller and larger keys, keeps the whole tree well ordered and adds exactly that pair to its map |
| LeafGraft.FilledLeafIsAlone | btree_lab/btree_ds.cc:98-110 | in a well-ordered tree the block of a non-empty leaf lies nowhere else in the tree |
| LeafGraft.GraftIsStoredIff | btree_lab/btree_ds.cc:98-110 | overwriting a leaf's block with other pairs stores the tree with that leaf replaced, if and only if no other pointer names the block |
| IndexState.StoreOfWritten | btree_lab/btree_ds.cc:98-110 | serializing a node through the cache changes that node's decoding and no other |
| IndexState.NodeSurvivesRun | btree_lab/btree_ds.cc:98-140 | a serialized node is what its block unserializes to after every run that does not write that block |
| IndexState.StoreOfRead | btree_lab/btree_ds.cc:113-140 | reading a block, with whatever it evicts, changes no node |
| IndexState.ReadsKeep | btree_lab/buffercache.cc:131-168 | a sequence of reads, refused ones included, leaves the view alone |
| IndexState.ReadsAreCounted | btree_lab/buffercache.cc:131-168 | reads of blocks on the disk are counted one by one |
| BTreeIndexes.BTreeIndex.constructor | btree_lab/btree.cc:26-35 | an index object with the given sizes over a cache |
| BTreeIndexes.BTreeIndex.AllocateNode | btree_lab/btree.cc:62-84 | pops the free chain: returns its head, changes nothing of the superblock but the free head and no block but 0, keeps every invariant of the volume, or reports no space and changes nothing; whatever the cache evicts |
| BTreeIndexes.BTreeIndex.DeallocateNode | btree_lab/btree.cc:86-107 | pushes the block on the free chain, changes nothing of the superblock but the free head and no other block, keeps every invariant of the volume, whatever the cache evicts |
| BTreeIndexes.BTreeIndex.BuildFresh | btree_lab/btree.cc:116-173 | writes the superblock, root and free chain of a fresh volume of any size |
| BTreeIndexes.BTreeIndex.Attach | btree_lab/btree.cc:109-178 | mounts whatever block 0 holds, after building a fresh volume with the index's key and value size when asked, on a disk of any size; on one block the root stays in the cache past the end and the cache cannot be detached |
| BTreeIndexes.BTreeIndex.Detach | btree_lab/btree.cc:180-183 | writes the superblock in memory to block 0 |
| BTreeIndexes.ScanSeparators | btree_lab/btree.cc:209-233 | the scan finds the first separator not below the key |
| BTreeIndexes.ScanLeaf | btree_lab/btree.cc:247-268 | the scan finds the pair with the key, if any |
| BTreeIndexes.BTreeIndex.LookupOrUpdateInternal | btree_lab/btree.cc:185-277 | the descent answers as the tree does, every error code included, a pointer past the end among them, and reads exactly the blocks of the path |
| BTreeIndexes.BTreeIndex.Lookup | btree_lab/btree.cc:420-423 | returns the value of the map, or ERROR_NONEXISTENT; view unchanged; reads grow by the path length, no block read twice |
| BTreeIndexes.PrintNode | btree_lab/btree.cc:348-401 | emits the pairs of a leaf in order, nothing for an interior node |
| BTreeIndexes.BTreeIndex.DisplayInternal | btree_lab/btree.cc:628-703 | emits and reads what the traversal says and stops with ERROR_INSANE at a block that is no tree node and with the error of the read at a pointer past the end |
| BTreeIndexes.BTreeIndex.DisplayChildren | btree_lab/btree.cc:666-685 | the loop over the pointers of an interior node |
| BTreeIndexes.BTreeIndex.Display | btree_lab/btree.cc:705-718 | the pairs of the map in strictly increasing key order, the blocks read in preorder, none twice if and only if the empty nodes of the tree lie in different blocks |
| StorageStack.TreeIsLive | btree_lab/btree.cc:62-107 | the free chain and a stored tree never meet |
| StorageStack.TreeSurvivesAllocator | btree_lab/btree.cc:62-107 | the superblock still names the same stored tree after every legal allocator run that does not write or free its blocks |
| StorageStack.TreeIsNeverHandedOut | btree_lab/btree.cc:62-107 | no allocation of such a run returns a block of the tree |
| StorageStack.RunAllocator | btree_lab/btree.cc:62-107 | every legal run performed through an evicting cache answers as a stack, leaves the volume of that run, consistent with the stack, and keeps root, sizes and every tree it avoids |
| StorageStack.LookupAfterRun | btree_lab/btree.cc:62-107 | a lookup after such a run answers from the map the tree held before it |
| StorageStack.CreateAndRun | btree_lab/btree.cc:109-178 | on an index just created on at least three blocks without stale marks, that stack is 2, 3, ... in order |
| StorageStack.PlaceInLeaf | btree_lab/btree.cc:546-555 | reading a leaf, placing a pair at the separating offset and writing it back through the cache stores a well-ordered tree for the map with the pair added, and keeps the free chain |
| StorageStack.FreshIndexIsEmpty | btree_lab/btree.cc:140-155 | the root of a fresh index is an empty tree |
| StorageStack.ColdReadsFetchOnce | btree_lab/buffercache.cc:144-166 | reads that fit an empty cache fetch each distinct block once |
| StorageStack.DetachedStore | btree_lab/buffercache.cc:67-88 | after Detach a cache of any size shows the same nodes |
| StorageStack.Remount | btree_lab/btree.cc:175-183 | unmounting and mounting again with another cache size gives back the same volume and free chain |

## Left out

- `BTreeIndex::Insert` as a whole: it does not compile and calls the lookup as if it returned a block number; only its leaf scan, its leaf shift loop and the separator it promotes are modelled.
- TreeModel.InsertScanIsRightIff: speaks of the first pair the scan places; the source goes on scanning after it, with an assertion already failed.
- StorageStack.PlaceInLeaf: takes the leaf and the offset from its caller and writes the leaf back; Insert finds neither correctly and never writes a leaf back unless it splits.
- BTreeNodes.BTreeNode.InsertPair: models the shift loop with the key count raised before it; as written the first SetKeyVal of the loop fails its own assertion.
- BTreeIndexes.BTreeIndex.LookupOrUpdateInternal: the blocks reachable from the node form a finite tree of nodes that fit their blocks; a cycle of pointers, on which the source does not return, and a key count beyond the block, on which it reads outside its buffer, are not modelled.
- BTreeIndexes.BTreeIndex.DisplayInternal: only the sorted key/value mode, with the output a sequence of pairs; the depth-first and DOT modes and their text are formatting.
- BTreeNodes.BTreeNode.Unserialize: node memory is never freed or reallocated; allocation failure and the placement-new assignment of blocks are not modelled.
- BufferCaches.BufferCache.ReadBlock: the call of IsBlockAllocated, whose answer only controls a message that is compiled out, is omitted here and in WriteBlock.
- Disk.DiskSystem.Read: the data file is a sequence of blocks; file offsets, short reads and writes, and the config and bitmap files are not modelled.
- DiskLatency.ValidGeometry: products and sums of the geometry do not overflow 32 bits; a geometry whose product wraps to the block count passes the source's check and is not modelled.
- `Update`, `Delete`, `SanityCheck`, `Print` and `PrefetchBlock`: stubs in the source.
- The command-line tools, the Perl scripts, `rwb` and `fec`: no storage logic.
