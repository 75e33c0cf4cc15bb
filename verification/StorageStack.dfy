/** Results that span the layers: a tree next to a working allocator, an index
    unmounted and mounted again, and what a display costs. */
module StorageStack {
  import opened Base
  import opened Disk
  import opened NodeLayout
  import opened CacheModel
  import opened CacheRefinement
  import opened CacheRuns
  import opened CacheReplacement
  import opened IndexState
  import opened FreeList
  import opened TreeModel
  import opened SharedBlocks
  import opened LeafGraft
  import opened BTreeNodes
  import opened BufferCaches
  import opened BTreeIndexes
  import DiskLatency

  // ---- trees and the allocator --------------------------------------------------------

  /** The block holds a tree node. */
  ghost predicate HoldsTreeNode(store: seq<Node>, a: nat) {
    a < |store| && (IsLeaf(store[a].info) || IsInner(store[a].info))
  }

  lemma {:induction false} TreeBlocksHoldNodes(store: seq<Node>, t: Tree, sz: Sizes)
    requires Stored(store, t, sz) && WellOrdered(t)
    ensures forall a :: a in Preorder(t) ==> HoldsTreeNode(store, a)
    decreases t, 1
  {
    if t.Inner? {
      TreeBlocksHoldNodesAll(store, t.kids, sz);
    }
  }

  lemma {:induction false} TreeBlocksHoldNodesAll(store: seq<Node>, kids: seq<Tree>, sz: Sizes)
    requires forall i :: 0 <= i < |kids| ==> Stored(store, kids[i], sz) && WellOrdered(kids[i])
    ensures forall a :: a in PreorderAll(kids) ==> HoldsTreeNode(store, a)
    decreases kids, 0
  {
    if kids != [] {
      TreeBlocksHoldNodes(store, kids[0], sz);
      TreeBlocksHoldNodesAll(store, kids[1..], sz);
    }
  }

  /** Every block of a stored tree is live and is not the superblock: the free chain
      and the tree never meet. */
  lemma TreeIsLive(v: Volume, chain: seq<nat>, t: Tree, sz: Sizes)
    requires VolumeOk(v, chain) && Stored(v.store, t, sz) && WellOrdered(t)
    ensures forall a :: a in Preorder(t) ==> a in v.marked && a != 0 && a !in chain
  {
    TreeBlocksHoldNodes(v.store, t, sz);
    forall a | a in Preorder(t)
      ensures a in v.marked && a != 0 && a !in chain
    {
      assert HoldsTreeNode(v.store, a);
      if a in chain {
        var i :| 0 <= i < |chain| && chain[i] == a;
        ChainSuffix(v.store, v.super.info.freelist, chain, i);
      }
    }
  }

  ghost predicate Avoids(op: AllocOp, addrs: seq<nat>) {
    op.Alloc? || op.n !in addrs
  }

  /** The run neither writes nor frees a block of the tree. */
  ghost predicate AvoidsAll(ops: seq<AllocOp>, t: Tree) {
    forall i :: 0 <= i < |ops| ==> Avoids(ops[i], Preorder(t))
  }

  lemma PerformKeepsTree(v: Volume, chain: seq<nat>, op: AllocOp, t: Tree, sz: Sizes)
    requires VolumeOk(v, chain) && LegalOp(v, op)
    requires Stored(v.store, t, sz) && WellOrdered(t) && Avoids(op, Preorder(t))
    ensures CanAllocate(v)
    ensures Stored(Perform(v, op).0.store, t, sz)
  {
    hide Stored, WellOrdered, Preorder;
    PerformKeeps(v, chain, op);
    TreeIsLive(v, chain, t, sz);
    AllocateKeeps(v, chain);
    StoredFrame(v.store, Perform(v, op).0.store, t, sz);
  }

  /** A tree stays stored, with the same contents, through every legal run of the
      allocator that does not itself overwrite or free blocks of the tree. */
  lemma {:induction false} StoredSurvivesAllocator(v: Volume, chain: seq<nat>, ops: seq<AllocOp>, t: Tree, sz: Sizes)
    requires VolumeOk(v, chain) && LegalRun(v, chain, ops)
    requires Stored(v.store, t, sz) && WellOrdered(t)
    requires AvoidsAll(ops, t)
    ensures Stored(VolumeAfter(v, chain, ops).store, t, sz)
    decreases |ops|
  {
    hide Stored, WellOrdered, Preorder, Perform, StackStep, VolumeOk, LegalOp, Avoids;
    if ops != [] {
      PerformKeeps(v, chain, ops[0]);
      PerformKeepsTree(v, chain, ops[0], t, sz);
      assert forall i :: 0 <= i < |ops[1..]| ==> ops[1..][i] == ops[i + 1];
      StoredSurvivesAllocator(Perform(v, ops[0]).0, StackStep(chain, ops[0]).0, ops[1..], t, sz);
    }
  }

  /** The index of the volume is the tree t: its superblock names the root of t, and t
      is stored and well ordered. */
  ghost predicate IsIndex(v: Volume, t: Tree, sz: Sizes) {
    v.super.info.rootnode == t.addr && Stored(v.store, t, sz) && WellOrdered(t)
  }

  /** The index is the same tree, under the same root, after every such run. */
  lemma TreeSurvivesAllocator(v: Volume, chain: seq<nat>, ops: seq<AllocOp>, t: Tree, sz: Sizes)
    requires VolumeOk(v, chain) && LegalRun(v, chain, ops)
    requires IsIndex(v, t, sz) && AvoidsAll(ops, t)
    ensures IsIndex(VolumeAfter(v, chain, ops), t, sz)
  {
    hide Stored, WellOrdered, VolumeOk, LegalRun, VolumeAfter, AvoidsAll;
    StoredSurvivesAllocator(v, chain, ops, t, sz);
    RunKeepsSuper(v, chain, ops);
  }

  /** ... and no allocation of such a run hands out a block of the tree. */
  lemma TreeIsNeverHandedOut(v: Volume, chain: seq<nat>, ops: seq<AllocOp>, t: Tree, sz: Sizes, a: nat)
    requires VolumeOk(v, chain) && LegalRun(v, chain, ops)
    requires Stored(v.store, t, sz) && WellOrdered(t) && a in Preorder(t)
    requires AvoidsAll(ops, t)
    ensures |AllocReplies(v, chain, ops)| == |ops|
    ensures forall i :: 0 <= i < |ops| && ops[i].Alloc? ==> AllocReplies(v, chain, ops)[i].n != a
  {
    hide Stored, WellOrdered, Preorder, VolumeOk, LegalRun, AllocReplies;
    TreeIsLive(v, chain, t, sz);
    LiveIsNotHandedOut(v, chain, ops, a);
  }

  /** The root of a fresh index is an empty tree: every lookup misses and the display
      is empty. A node needs its header and one pointer to be scanned at all. */
  lemma FreshIndexIsEmpty(n: SizeT, keysize: SizeT, valuesize: SizeT, blocksize: SizeT, marked: set<nat>)
    requires 2 <= n && blocksize >= HEADER + PTR_SIZE
    ensures var v := Format(n, keysize, valuesize, blocksize, marked);
            var t := Inner(v.super.info.rootnode, [], []);
            && Stored(v.store, t, Sizes(keysize, valuesize, blocksize))
            && WellOrdered(t) && Contents(t) == map[] && Show(t).pairs == []
  {
    var v := Format(n, keysize, valuesize, blocksize, marked);
    assert v.store[1] == FreshNode(n, keysize, valuesize, blocksize, 1);
    assert Keys(v.store[1]) == [];
  }

  // ---- the allocator through the cache -----------------------------------------------------

  /** A legal run of the allocator, performed through a cache that may evict at every
      step, answers as a stack of block numbers and leaves the volume consistent with
      that stack. */
  method RunAllocator(ix: BTreeIndex, ops: seq<AllocOp>, ghost chain: seq<nat>)
    returns (replies: seq<AllocReply>)
    requires ix.Mounted() && VolumeOk(ix.State(), chain) && LegalRun(ix.State(), chain, ops)
    modifies ix.superblock`info, ix.buffercache, ix.buffercache.disk, ix.buffercache.disk.bitmap
    ensures ix.Mounted() && ix.State() == VolumeAfter(old(ix.State()), chain, ops)
    ensures replies == StackReplies(chain, ops)
    ensures VolumeOk(ix.State(), StackAfter(chain, ops))
    ensures ix.superblock.info ==
            old(ix.superblock.info).(freelist := ix.superblock.info.freelist)
    ensures forall t, sz :: IsIndex(old(ix.State()), t, sz) && AvoidsAll(ops, t) ==>
              IsIndex(ix.State(), t, sz)
    decreases |ops|
  {
    hide VolumeOk, LegalRun, VolumeAfter, StackReplies, StackAfter, Perform, StackStep;
    hide CacheOk, InRange, StoreOf, BufferCache.State, DiskLatency.ValidGeometry;
    ghost var v := ix.State();
    AllocatorIsStack(v, chain, ops);
    RunKeepsSuper(v, chain, ops);
    IndexSurvivesAny(v, chain, ops);
    RunUnfold(v, chain, ops);
    if ops == [] {
      return [];
    }
    PerformKeeps(v, chain, ops[0]);
    var first := RunOne(ix, ops[0], chain);
    var rest := RunAllocator(ix, ops[1..], StackStep(chain, ops[0]).0);
    replies := [first] + rest;
  }

  lemma IndexSurvivesAny(v: Volume, chain: seq<nat>, ops: seq<AllocOp>)
    requires VolumeOk(v, chain) && LegalRun(v, chain, ops)
    ensures forall t, sz :: IsIndex(v, t, sz) && AvoidsAll(ops, t) ==>
              IsIndex(VolumeAfter(v, chain, ops), t, sz)
  {
    hide *;
    forall t, sz | IsIndex(v, t, sz) && AvoidsAll(ops, t)
      ensures IsIndex(VolumeAfter(v, chain, ops), t, sz)
    {
      TreeSurvivesAllocator(v, chain, ops, t, sz);
    }
  }

  /** After a run of the allocator that spares the tree a lookup answers from the map
      the tree held before the run. */
  method LookupAfterRun(ix: BTreeIndex, ops: seq<AllocOp>, key: Key,
      ghost chain: seq<nat>, ghost t: Tree, ghost sz: Sizes)
    returns (rc: ErrorT, value: Value)
    requires ix.Mounted() && VolumeOk(ix.State(), chain) && LegalRun(ix.State(), chain, ops)
    requires IsIndex(ix.State(), t, sz) && AvoidsAll(ops, t)
    requires |key| == sz.key && sz.block == ix.buffercache.disk.geom.blocksize
    modifies ix.superblock`info, ix.buffercache, ix.buffercache.disk, ix.buffercache.disk.bitmap
    ensures ix.Mounted() && rc == if key in Contents(t) then NoError else NonExistent
    ensures key in Contents(t) ==> value == Contents(t)[key]
    ensures VolumeOk(ix.State(), StackAfter(chain, ops))
  {
    hide VolumeOk, LegalRun, VolumeAfter, StackReplies, StackAfter, AvoidsAll;
    hide Stored, WellOrdered, Contents;
    hide CacheOk, InRange, StoreOf, BufferCache.State, DiskLatency.ValidGeometry;
    var replies := RunAllocator(ix, ops, chain);
    assert IsIndex(ix.State(), t, sz);
    rc, value := ix.Lookup(key, t, sz);
  }

  /** One call of such a run. */
  method RunOne(ix: BTreeIndex, op: AllocOp, ghost chain: seq<nat>) returns (reply: AllocReply)
    requires ix.Mounted() && VolumeOk(ix.State(), chain) && LegalOp(ix.State(), op)
    requires CanAllocate(ix.State())
    modifies ix.superblock`info, ix.buffercache, ix.buffercache.disk, ix.buffercache.disk.bitmap
    ensures ix.Mounted() && ix.State() == Perform(old(ix.State()), op).0
    ensures reply == Perform(old(ix.State()), op).1
  {
    hide CacheOk, InRange, StoreOf, BufferCache.State, DiskLatency.ValidGeometry, IsChain;
    ghost var v := ix.State();
    if op.Alloc? {
      var rc, n := ix.AllocateNode();
      return AllocReply(rc, n);
    } else if op.Write? {
      var b := new BTreeNode.FromNode(op.node);
      var rc := ix.StoreNode(b, op.n);
      return AllocReply(rc, op.n);
    } else {
      var rc := ix.DeallocateNode(op.n);
      return AllocReply(rc, op.n);
    }
  }

  lemma RunUnfold(v: Volume, chain: seq<nat>, ops: seq<AllocOp>)
    requires VolumeOk(v, chain) && LegalRun(v, chain, ops)
    ensures ops == [] ==>
              VolumeAfter(v, chain, ops) == v && StackReplies(chain, ops) == []
              && StackAfter(chain, ops) == chain
    ensures ops != [] ==>
              && LegalOp(v, ops[0]) && CanAllocate(v)
              && var w, rest := Perform(v, ops[0]).0, StackStep(chain, ops[0]).0;
              && VolumeOk(w, rest) && LegalRun(w, rest, ops[1..])
              && VolumeAfter(v, chain, ops) == VolumeAfter(w, rest, ops[1..])
              && StackReplies(chain, ops) == [Perform(v, ops[0]).1] + StackReplies(rest, ops[1..])
              && StackAfter(chain, ops) == StackAfter(rest, ops[1..])
  {
    hide VolumeOk, Perform, StackStep, LegalOp;
    if ops != [] {
      PerformKeeps(v, chain, ops[0]);
    }
  }

  /** A legal run on the volume that Attach(create) leaves. */
  ghost predicate LegalOnFresh(n: SizeT, keysize: SizeT, valuesize: SizeT, blocksize: SizeT,
      marked: set<nat>, ops: seq<AllocOp>)
    requires blocksize >= HEADER && 3 <= n && marked <= {0, 1}
  {
    FormatIsConsistentIff(n, keysize, valuesize, blocksize, marked);
    LegalRun(Format(n, keysize, valuesize, blocksize, marked), FreshChain(2, n), ops)
  }

  /** Create an index on a disk of at least three blocks with no stale marks and run the
      allocator: blocks 2, 3, ... are the stack it starts from. */
  method CreateAndRun(cache: BufferCache, keysize: SizeT, valuesize: SizeT, ops: seq<AllocOp>)
    returns (ix: BTreeIndex, replies: seq<AllocReply>)
    requires cache.Valid() && InRange(cache.State()) && cache.disk.geom.blocksize >= HEADER
    requires 3 <= cache.disk.geom.numblocks && cache.State().disk.marked <= {0, 1}
    requires LegalOnFresh(cache.disk.geom.numblocks, keysize, valuesize, cache.disk.geom.blocksize,
                          cache.State().disk.marked, ops)
    modifies cache, cache.disk, cache.disk.bitmap
    ensures fresh(ix) && ix.buffercache == cache && ix.Mounted()
    ensures replies == StackReplies(FreshChain(2, cache.disk.geom.numblocks), ops)
    ensures VolumeOk(ix.State(), StackAfter(FreshChain(2, cache.disk.geom.numblocks), ops))
  {
    hide CacheOk, InRange, StoreOf, BufferCache.State, DiskLatency.ValidGeometry, VolumeOk, LegalRun;
    hide FreshChain;
    var n := cache.disk.geom.numblocks;
    FormatIsConsistentIff(n, keysize, valuesize, cache.disk.geom.blocksize, cache.State().disk.marked);
    ix := new BTreeIndex(keysize, valuesize, cache);
    var rc := ix.Attach(0, true);
    replies := RunAllocator(ix, ops, FreshChain(2, n));
  }

  // ---- a pair placed in a stored tree -----------------------------------------------------

  /** Read the leaf a lookup of the key ends at, place the pair where it separates the
      smaller keys from the larger ones, and write the leaf back: the volume then holds
      a tree for the old map with the pair added, so that by Lookup the new key is found
      and every other answer is unchanged. The free chain is not touched. */
  method PlaceInLeaf(ix: BTreeIndex, leaf: SizeT, offset: SizeT, key: Key, value: Value,
      ghost t: Tree, ghost sz: Sizes)
    requires ix.Mounted() && ix.superblock.info.rootnode == t.addr
    requires sz.block == ix.buffercache.disk.geom.blocksize
    requires Stored(ix.State().store, t, sz) && WellOrdered(t) && Shaped(t)
    requires Target(t, key).Leaf? && leaf == Target(t, key).addr < |ix.State().store|
    requires Alone(t, key)
    requires offset <= |Target(t, key).pairs| && Separates(Target(t, key).pairs, offset, key)
    requires |key| == sz.key && |value| == sz.value
    requires HasRoom(ix.State().store[leaf].info)
    modifies ix.buffercache, ix.buffercache.disk
    ensures ix.Mounted() && ix.State().super == old(ix.State()).super
    ensures ix.State().marked == old(ix.State()).marked
    ensures var grown := Graft(t, key, Placed(Target(t, key).pairs, offset, (key, value)));
            && grown.addr == t.addr
            && Stored(ix.State().store, grown, sz) && WellOrdered(grown)
            && Contents(grown) == Contents(t)[key := value]
    ensures forall chain :: VolumeOk(old(ix.State()), chain) ==> VolumeOk(ix.State(), chain)
  {
    hide CacheOk, InRange, StoreOf, BufferCache.State, DiskLatency.ValidGeometry, VolumeOk;
    hide Stored, Graft, Target, Contents, WellOrdered, Placed, Separates, Pairs, Fits;
    ghost var v, pairs := ix.State(), Target(t, key).pairs;
    TargetIsStored(v.store, t, sz, key);
    GraftIsInsertion(t, (key, value), offset);
    var node := new BTreeNode.Empty();
    var rc := ix.FetchNode(node, leaf);
    node.InsertPair(offset, key, value);
    ghost var placed := Placed(pairs, offset, (key, value));
    PlacedIs(pairs, offset, (key, value));
    GraftIsStoredIff(v.store, t, sz, key, node.AsNode(), placed);
    rc := ix.StoreNode(node, leaf);
    assert ix.State() == Stamp(v, leaf, node.AsNode());
    forall chain | VolumeOk(v, chain)
      ensures VolumeOk(ix.State(), chain)
    {
      TargetIsLive(v, chain, t, sz, key);
      StampKeeps(v, chain, leaf, node.AsNode());
    }
  }

  /** A leaf that can take one more pair. */
  ghost predicate HasRoom(info: NodeInfo) {
    info.numkeys + 1 < WORD && Fits(info.(numkeys := info.numkeys + 1))
  }

  lemma PlacedIs(pairs: seq<Pair>, offset: nat, p: Pair)
    requires offset <= |pairs|
    ensures Placed(pairs, offset, p) == pairs[..offset] + [p] + pairs[offset..]
    ensures |Placed(pairs, offset, p)| == |pairs| + 1
  {
  }

  lemma TargetIsStored(store: seq<Node>, t: Tree, sz: Sizes, key: Key)
    requires Stored(store, t, sz) && Shaped(t) && Target(t, key).Leaf?
    ensures var a := Target(t, key).addr;
            && a < |store| && NodeHolds(store[a], Target(t, key), sz)
  {
    TargetIsSubtree(t, key);
    SubtreeIsSound(store, t, sz, Target(t, key));
  }

  lemma TargetIsLive(v: Volume, chain: seq<nat>, t: Tree, sz: Sizes, key: Key)
    requires VolumeOk(v, chain) && Stored(v.store, t, sz) && WellOrdered(t) && Shaped(t)
    ensures var a := Target(t, key).addr;
            1 <= a && a in v.marked && v.super.info.nodetype == SUPERBLOCK
  {
    hide Stored, WellOrdered, Target, IsChain, Elements, Blocks;
    TargetIsSubtree(t, key);
    PreorderAt(t);
    var i :| 0 <= i < |Subtrees(t)| && Subtrees(t)[i] == Target(t, key);
    assert Preorder(t)[i] in Preorder(t);
    TreeIsLive(v, chain, t, sz);
  }

  // ---- what a traversal costs -------------------------------------------------------------

  lemma {:induction false} FirstReadsOfReads(addrs: seq<nat>)
    ensures FirstRead(Reads(addrs)) == Elements(addrs)
    ensures Touched(Reads(addrs)) == Elements(addrs)
    decreases |addrs|
  {
    if addrs == [] {
      assert Reads(addrs) == [];
      assert Elements(addrs) == {};
    } else {
      var front := addrs[..|addrs| - 1];
      var last := addrs[|addrs| - 1];
      FirstReadsOfReads(front);
      assert Reads(addrs)[..|addrs| - 1] == Reads(front);
      TouchedAppend(Reads(addrs));
      assert Elements(addrs) == Elements(front) + {last} by {
        assert forall i :: 0 <= i < |front| ==> front[i] == addrs[i];
      }
    }
  }

  /** Reading a list of blocks that fits an empty cache fetches each distinct block
      from the disk exactly once and writes nothing. With the reads a lookup or a
      display makes, this is what they cost on a cold cache. */
  lemma ColdReadsFetchOnce(c: CacheState, addrs: seq<nat>)
    requires CacheOk(c) && c.resident == map[] && OnDisk(c, addrs)
    requires |Elements(addrs)| <= c.size
    ensures Readable(addrs)
    ensures AfterReads(c, addrs).ndiskreads == c.ndiskreads + |Elements(addrs)|
    ensures AfterReads(c, addrs).ndiskwrites == c.ndiskwrites
  {
    hide FirstRead, Touched, After;
    OnDiskIsReadable(c, addrs);
    ReadsAreLegal(c, addrs);
    ReadsAreInRange(c, addrs);
    FirstReadsOfReads(addrs);
    FittingRunNeverEvicts(c, Reads(addrs));
  }

  // ---- unmounting and mounting again ---------------------------------------------------------

  lemma {:induction false} WriteBackAllKeepsMarks(c: CacheState, keys: seq<nat>)
    requires DiskOk(c.disk) && Writable(c, keys)
    ensures WriteBackAll(c, keys).cache.disk.marked == c.disk.marked
    decreases |keys|
  {
    hide DiskLatency.AccessTime, DiskLatency.HeadAfter, DiskLatency.ValidGeometry;
    if keys != [] && c.resident[keys[0]].dirty && WriteBack(c, keys[0]).rc == NoError {
      WriteBackAllKeepsMarks(WriteBack(c, keys[0]).cache, keys[1..]);
    } else if keys != [] && !c.resident[keys[0]].dirty {
      WriteBackAllKeepsMarks(c, keys[1..]);
    }
  }

  /** A detached cache leaves a disk on which a cache of any size shows the same
      nodes. */
  lemma DetachedStore(c: CacheState, size: nat)
    requires CacheOk(c) && InRange(c) && c.disk.geom.blocksize >= HEADER
    ensures Detach(c).rc == NoError
    ensures var d := NewCache(Detach(c).cache.disk, size);
            && CacheOk(d) && d.disk.geom == c.disk.geom
            && StoreOf(d) == StoreOf(c) && d.disk.marked == c.disk.marked
  {
    hide Detach, Decode;
    DetachKeeps(c);
    DetachMarks(c);
    var d := NewCache(Detach(c).cache.disk, size);
    forall i | 0 <= i < |c.disk.blocks|
      ensures BlockAt(d, i) == BlockAt(c, i)
    {
      assert Some(d.disk.blocks[i]) == Peek(c, i);
    }
  }

  lemma DetachMarks(c: CacheState)
    requires CacheOk(c)
    ensures Detach(c).cache.disk.marked == c.disk.marked
  {
    hide WriteBackAll, DiskLatency.ValidGeometry;
    OrderIsWritable(c);
    WriteBackAllKeepsMarks(c, Order(c.resident));
  }

  /** Detach the index and its cache, then open the disk again with a cache of any
      other size and a fresh index object, as one run of a tool after another does:
      the volume comes back exactly, superblock, free chain and every stored tree, so
      every later lookup, display and allocation answers as before. */
  method Remount(ix: BTreeIndex, newsize: SizeT, ghost chain: seq<nat>) returns (again: BTreeIndex)
    requires ix.Mounted() && VolumeOk(ix.State(), chain)
    modifies ix.buffercache, ix.buffercache.disk, ix.buffercache.disk.bitmap
    ensures again.Mounted() && fresh(again) && fresh(again.buffercache)
    ensures again.buffercache.disk == ix.buffercache.disk && again.buffercache.cachesize == newsize
    ensures again.State() == old(ix.State())
    ensures VolumeOk(again.State(), chain)
  {
    hide CacheOk, InRange, StoreOf, DiskSystem.State, DiskLatency.ValidGeometry, CacheModel.Detach;
    var rc := ix.Detach();
    ghost var c := ix.Cache();
    assert StoreOf(c) == old(ix.State()).store;
    DetachedStore(c, newsize);
    rc := ix.buffercache.Detach();
    var cache := new BufferCache(ix.buffercache.disk, newsize);
    rc := cache.Attach();
    EmptyInRange(NewCache(CacheModel.Detach(c).cache.disk, newsize));
    again := new BTreeIndex(0, 0, cache);
    rc := again.Attach(0, false);
  }

  lemma EmptyInRange(c: CacheState)
    requires c.resident == map[]
    ensures InRange(c)
  {
  }
}
