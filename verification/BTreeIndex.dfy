/** The index as the source writes it (btree.cc): allocation, mounting, lookup and the
    sorted display, all through a buffer cache that may evict at every step. */
module BTreeIndexes {
  import opened Base
  import opened NodeLayout
  import opened CacheModel
  import opened CacheRefinement
  import opened CacheRuns
  import opened IndexState
  import opened FreeList
  import opened TreeModel
  import opened SharedBlocks
  import opened BTreeNodes
  import opened BufferCaches
  import DiskLatency

  datatype BTreeOp = OpInsert | OpDelete | OpUpdate | OpLookup

  class BTreeIndex {
    const buffercache: BufferCache
    var superblock_index: SizeT
    const superblock: BTreeNode

    ghost function Cache(): CacheState
      requires buffercache.disk.Valid()
      reads buffercache, buffercache.disk, buffercache.disk.bitmap
    {
      buffercache.State()
    }

    /** A working cache of blocks that can hold a node. */
    ghost predicate Open()
      reads this, superblock, superblock.data
      reads buffercache, buffercache.disk, buffercache.disk.bitmap
    {
      && buffercache.Valid()
      && buffercache.disk.geom.blocksize >= HEADER
      && superblock.Valid()
    }

    /** ... with every resident block on the disk. */
    ghost predicate Ready()
      reads this, superblock, superblock.data
      reads buffercache, buffercache.disk, buffercache.disk.bitmap
    {
      Open() && InRange(Cache())
    }

    /** ... and an in-memory superblock for this disk. */
    ghost predicate Mounted()
      reads this, superblock, superblock.data
      reads buffercache, buffercache.disk, buffercache.disk.bitmap
    {
      && Ready() && superblock_index == 0
      && superblock.info.nodetype == SUPERBLOCK && superblock.data == null
      && superblock.info.blocksize == buffercache.disk.geom.blocksize
    }

    ghost function State(): Volume
      requires Open()
      reads this, superblock, superblock.data
      reads buffercache, buffercache.disk, buffercache.disk.bitmap
    {
      Volume(StoreOf(Cache()), superblock.AsNode(), Cache().disk.marked)
    }

    constructor (keysize: SizeT, valuesize: SizeT, cache: BufferCache)
      requires cache.Valid() && InRange(cache.State()) && cache.disk.geom.blocksize >= HEADER
      ensures Ready() && buffercache == cache && fresh(superblock) && superblock.data == null
      ensures superblock.info.keysize == keysize && superblock.info.valuesize == valuesize
      ensures superblock.info.nodetype == UNALLOCATED_BLOCK
    {
      var node := new BTreeNode.Empty();
      node.info := node.info.(keysize := keysize, valuesize := valuesize);
      superblock := node;
      buffercache := cache;
      superblock_index := 0;
    }

    // ---- nodes through the cache --------------------------------------------------------

    /** Unserialize block n, or fail with the code of the read when it lies past the
        end. */
    method FetchNode(node: BTreeNode, n: SizeT) returns (rc: ErrorT)
      requires Open() && n < BLOCK_LIMIT
      requires n < |State().store| ==>
                 State().store[n].info.blocksize == buffercache.disk.geom.blocksize
      requires n >= |State().store| ==> InRange(Cache())
      modifies node
      modifies buffercache`blockmap, buffercache`curtime, buffercache`nreads
      modifies buffercache`diskreads, buffercache`diskwrites, buffercache.disk
      ensures buffercache.Valid() && (InRange(Cache()) <==> old(InRange(Cache())))
      ensures rc == if n < |old(State()).store| then NoError else NoSpace
      ensures Cache() == ReadBlock(old(Cache()), n).cache
      ensures StoreOf(Cache()) == old(StoreOf(Cache()))
      ensures Cache().disk.marked == old(Cache()).disk.marked
      ensures rc == NoError ==>
                && node.Valid() && node.AsNode() == old(State()).store[n]
                && (node.data == null || fresh(node.data))
                && (!HasData(node.info) ==> node.data == null)
      ensures rc != NoError ==> node.info == old(node.info) && node.data == old(node.data)
    {
      hide ReadBlock, EntryOk, Decode;
      ghost var c := Cache();
      StoreOfRead(c, n);
      ReadKeepsInRange(c, n);
      ReadKeepsMarks(c, n);
      if n < |c.disk.blocks| {
        BlockIsPeek(c, n);
      }
      rc := node.Unserialize(buffercache, n);
    }

    /** Serialize a node to block n. The cache accepts a block past the end; it shows
        in no node of the volume, but stays in the cache. */
    method StoreNode(node: BTreeNode, n: SizeT) returns (rc: ErrorT)
      requires Open() && n < BLOCK_LIMIT && node.Valid()
      requires node.info.blocksize == buffercache.disk.geom.blocksize
      modifies buffercache`blockmap, buffercache`curtime, buffercache`nwrites
      modifies buffercache`diskwrites, buffercache.disk
      ensures buffercache.Valid() && rc == NoError
      ensures InRange(Cache()) <==> old(InRange(Cache())) && n < |old(State()).store|
      ensures StoreOf(Cache()) ==
              if n < |old(State()).store| then old(StoreOf(Cache()))[n := node.AsNode()]
              else old(StoreOf(Cache()))
      ensures Cache().disk.marked == old(Cache()).disk.marked
    {
      hide WriteBlock, EntryOk, Encode;
      ghost var c := Cache();
      ghost var fill;
      rc, fill := node.Serialize(buffercache, n);
      ghost var block := Encode(node.AsNode(), fill);
      if n < |c.disk.blocks| {
        StoreOfWritten(c, n, node.AsNode(), fill);
      } else {
        StoreOfWrittenBeyond(c, n, block);
      }
      WriteKeepsInRange(c, n, block);
      WriteKeepsMarks(c, n, block);
    }

    /** Mark block n as allocated; a block past the end is refused. */
    method MarkBlock(n: SizeT)
      requires Open() && n < BLOCK_LIMIT
      modifies buffercache`allocs, buffercache.disk.bitmap
      ensures buffercache.Valid() && (InRange(Cache()) <==> old(InRange(Cache())))
      ensures StoreOf(Cache()) == old(StoreOf(Cache()))
      ensures Cache().disk.marked ==
              old(Cache()).disk.marked + (if n < |old(State()).store| then {n} else {})
    {
      hide EntryOk, StoreOf;
      ghost var c := Cache();
      var rc := buffercache.NotifyAllocateBlock(n);
      StoreOfMarks(c, Cache());
    }

    method UnmarkBlock(n: SizeT)
      requires Open() && n < BLOCK_LIMIT
      modifies buffercache`deallocs, buffercache.disk.bitmap
      ensures buffercache.Valid() && (InRange(Cache()) <==> old(InRange(Cache())))
      ensures StoreOf(Cache()) == old(StoreOf(Cache()))
      ensures Cache().disk.marked ==
              old(Cache()).disk.marked - (if n < |old(State()).store| then {n} else {})
    {
      hide EntryOk, StoreOf;
      ghost var c := Cache();
      var rc := buffercache.NotifyDeallocateBlock(n);
      StoreOfMarks(c, Cache());
    }

    // ---- the allocator -----------------------------------------------------------------

    method AllocateNode() returns (rc: ErrorT, n: SizeT)
      requires Mounted() && CanAllocate(State())
      requires superblock.info.freelist != 0 ==>
                 State().store[superblock.info.freelist].info.blocksize == superblock.info.blocksize
      modifies superblock`info, buffercache`allocs
      modifies buffercache`blockmap, buffercache`curtime, buffercache`nreads, buffercache`nwrites
      modifies buffercache`diskreads, buffercache`diskwrites, buffercache.disk, buffercache.disk.bitmap
      ensures Mounted()
      ensures State() == Allocate(old(State())).volume
      ensures superblock.info == old(superblock.info).(freelist := superblock.info.freelist)
      ensures forall i :: 0 < i < |State().store| ==> State().store[i] == old(State()).store[i]
      ensures rc == Allocate(old(State())).rc && n == Allocate(old(State())).n
      ensures forall chain :: VolumeOk(old(State()), chain) ==>
                if chain == [] then rc == NoSpace && State() == old(State())
                else rc == NoError && n == chain[0] && VolumeOk(State(), chain[1..])
    {
      hide ReadBlock, CacheOk, InRange, StoreOf, BufferCache.State, DiskLatency.ValidGeometry, VolumeOk;
      ghost var v := State();
      n := superblock.info.freelist;
      if n == 0 {
        AllocateKeepsAny(v);
        return NoSpace, 0;
      }
      var node := new BTreeNode.Empty();
      rc := FetchNode(node, n);
      assert node.info.nodetype == UNALLOCATED_BLOCK;
      superblock.info := superblock.info.(freelist := node.info.freelist);
      rc := StoreNode(superblock, superblock_index);
      MarkBlock(n);
      rc := NoError;
      assert State() == Allocate(v).volume;
      AllocateKeepsAny(v);
    }

    method DeallocateNode(n: SizeT) returns (rc: ErrorT)
      requires Mounted() && CanFree(State(), n)
      requires State().store[n].info.blocksize == superblock.info.blocksize
      modifies superblock`info, buffercache`deallocs
      modifies buffercache`blockmap, buffercache`curtime, buffercache`nreads, buffercache`nwrites
      modifies buffercache`diskreads, buffercache`diskwrites, buffercache.disk, buffercache.disk.bitmap
      ensures Mounted() && rc == NoError
      ensures State() == Deallocate(old(State()), n)
      ensures superblock.info == old(superblock.info).(freelist := n)
      ensures forall i :: 0 < i < |State().store| && i != n ==> State().store[i] == old(State()).store[i]
      ensures 2 <= n && n in old(State()).marked ==>
                forall chain :: VolumeOk(old(State()), chain) ==> VolumeOk(State(), [n] + chain)
    {
      hide ReadBlock, CacheOk, InRange, StoreOf, BufferCache.State, DiskLatency.ValidGeometry, VolumeOk;
      ghost var v := State();
      var node := new BTreeNode.Empty();
      rc := FetchNode(node, n);
      assert node.info.nodetype != UNALLOCATED_BLOCK;
      node.info := node.info.(nodetype := UNALLOCATED_BLOCK, freelist := superblock.info.freelist);
      rc := StoreNode(node, n);
      superblock.info := superblock.info.(freelist := n);
      rc := StoreNode(superblock, superblock_index);
      UnmarkBlock(n);
      rc := NoError;
      assert State() == Deallocate(v, n);
      DeallocateKeepsAny(v, n);
    }

    // ---- mounting -----------------------------------------------------------------------

    /** Write one node of a fresh index. */
    method StoreFresh(nodetype: SizeT, freelist: SizeT, n: SizeT) returns (rc: ErrorT)
      requires Open() && superblock_index == 0 && n < BLOCK_LIMIT
      modifies buffercache`blockmap, buffercache`curtime, buffercache`nwrites
      modifies buffercache`diskwrites, buffercache.disk
      ensures buffercache.Valid() && rc == NoError
      ensures InRange(Cache()) <==> old(InRange(Cache())) && n < |old(State()).store|
      ensures Cache().disk.marked == old(Cache()).disk.marked
      ensures var info := FreshInfo(nodetype, superblock.info.keysize, superblock.info.valuesize,
                                    buffercache.disk.geom.blocksize, freelist);
              StoreOf(Cache()) ==
              if n < |old(State()).store| then old(StoreOf(Cache()))[n := Blank(info)]
              else old(StoreOf(Cache()))
    {
      hide CacheOk, InRange, StoreOf, BufferCache.State, DiskLatency.ValidGeometry;
      var node := new BTreeNode(nodetype, superblock.info.keysize, superblock.info.valuesize,
                                buffercache.disk.geom.blocksize);
      ghost var zeros := node.AsNode().data;
      node.info := node.info.(rootnode := superblock_index + 1, freelist := freelist, numkeys := 0);
      assert node.AsNode() == Blank(node.info);
      rc := StoreNode(node, n);
    }

    /** Write the free blocks of a fresh index, each naming the next. */
    method StoreFreeChain() returns (rc: ErrorT)
      requires Open() && superblock_index == 0
      modifies buffercache`blockmap, buffercache`curtime, buffercache`nwrites
      modifies buffercache`diskwrites, buffercache.disk
      ensures buffercache.Valid() && rc == NoError
      ensures InRange(Cache()) <==> old(InRange(Cache()))
      ensures Cache().disk.marked == old(Cache()).disk.marked
      ensures forall j :: 0 <= j < buffercache.disk.geom.numblocks ==>
                StoreOf(Cache())[j] ==
                if j < 2 then old(StoreOf(Cache()))[j]
                else FreshNode(buffercache.disk.geom.numblocks, superblock.info.keysize,
                               superblock.info.valuesize, buffercache.disk.geom.blocksize, j)
    {
      hide CacheOk, InRange, StoreOf, BufferCache.State, DiskLatency.ValidGeometry;
      rc := NoError;
      var n := buffercache.disk.geom.numblocks;
      var i := superblock_index + 2;
      while i < n
        invariant 2 <= i && (i <= n || i == 2)
        invariant Open() && rc == NoError && (InRange(Cache()) <==> old(InRange(Cache())))
        invariant Cache().disk.marked == old(Cache()).disk.marked
        invariant forall j :: 0 <= j < i && j < n ==>
          StoreOf(Cache())[j] ==
          if j < 2 then old(StoreOf(Cache()))[j]
          else FreshNode(n, superblock.info.keysize, superblock.info.valuesize,
                         buffercache.disk.geom.blocksize, j)
      {
        rc := StoreFresh(UNALLOCATED_BLOCK, if i + 1 == n then 0 else i + 1, i);
        i := i + 1;
      }
    }

    /** Superblock in block 0, root node in block 1, free list in the rest. On a disk of
        one block the root is written past the end. */
    method BuildFresh() returns (rc: ErrorT)
      requires Open() && superblock_index == 0
      modifies buffercache`allocs, buffercache`blockmap, buffercache`curtime, buffercache`nwrites
      modifies buffercache`diskwrites, buffercache.disk, buffercache.disk.bitmap
      ensures buffercache.Valid() && rc == NoError && 0 < buffercache.disk.geom.numblocks
      ensures InRange(Cache()) <==> old(InRange(Cache())) && 2 <= buffercache.disk.geom.numblocks
      ensures var v := Format(buffercache.disk.geom.numblocks, superblock.info.keysize,
                              superblock.info.valuesize, buffercache.disk.geom.blocksize,
                              old(Cache()).disk.marked);
              StoreOf(Cache()) == v.store && Cache().disk.marked == v.marked
    {
      hide CacheOk, InRange, StoreOf, BufferCache.State, DiskLatency.ValidGeometry, Blank;
      DiskHasBlocks(Cache());
      MarkBlock(superblock_index);
      rc := StoreFresh(SUPERBLOCK, superblock_index + 2, superblock_index);
      MarkBlock(superblock_index + 1);
      rc := StoreFresh(ROOT_NODE, superblock_index + 2, superblock_index + 1);
      rc := StoreFreeChain();
    }

    /** Mount the index, after building a fresh one when create is set. Nothing checks
        that block 0 holds a superblock. On a disk of one block the fresh root lies past
        the end: it stays in the cache, and the Detach of the cache will fail. */
    method Attach(initblock: SizeT, create: bool) returns (rc: ErrorT)
      requires Ready() && initblock == 0
      requires !create ==> State().store[0].info.blocksize == buffercache.disk.geom.blocksize
      modifies this`superblock_index, superblock, buffercache`allocs
      modifies buffercache`blockmap, buffercache`curtime, buffercache`nreads, buffercache`nwrites
      modifies buffercache`diskreads, buffercache`diskwrites, buffercache.disk, buffercache.disk.bitmap
      ensures Open() && rc == NoError && |State().store| > 0
      ensures create ==>
                State() == Format(buffercache.disk.geom.numblocks, old(superblock.info.keysize),
                                  old(superblock.info.valuesize), buffercache.disk.geom.blocksize,
                                  old(Cache()).disk.marked)
      ensures create ==>
                State().super == Node(NodeInfo(1, old(superblock.info.keysize), old(superblock.info.valuesize),
                                               buffercache.disk.geom.blocksize, 1, 2, 0), [])
      ensures !create ==>
                State() == Volume(old(State()).store, old(State()).store[0], old(State()).marked)
      ensures Ready() <==> !create || |State().store| >= 2
      ensures Mounted() <==> Ready() && State().super.info.nodetype == SUPERBLOCK
      ensures !Ready() ==> CacheModel.Detach(Cache()).rc == NoSpace
    {
      hide CacheOk, InRange, StoreOf, BufferCache.State, DiskLatency.ValidGeometry, ReadBlock;
      DiskHasBlocks(Cache());
      superblock_index := initblock;
      if create {
        FormatHeaders(buffercache.disk.geom.numblocks, superblock.info.keysize,
                      superblock.info.valuesize, buffercache.disk.geom.blocksize, Cache().disk.marked);
        rc := BuildFresh();
      }
      rc := FetchNode(superblock, initblock);
      DetachKeeps(Cache());
    }

    method Detach() returns (rc: ErrorT)
      requires Mounted() && 0 < |State().store|
      modifies buffercache`blockmap, buffercache`curtime, buffercache`nwrites
      modifies buffercache`diskwrites, buffercache.disk
      ensures Mounted() && rc == NoError
      ensures State() == old(State()).(store := old(State()).store[0 := old(State()).super])
    {
      hide CacheOk, InRange, StoreOf, BufferCache.State, DiskLatency.ValidGeometry;
      rc := StoreNode(superblock, superblock_index);
    }

    // ---- lookup -------------------------------------------------------------------------

    /** The descent. The tree t is what the volume stores below block node; the cache
        ends exactly as if the blocks of the search path had been read in order. */
    method LookupOrUpdateInternal(node: SizeT, op: BTreeOp, key: Key, ghost t: Tree, ghost sz: Sizes)
      returns (rc: ErrorT, value: Value)
      requires Ready() && node == t.addr && |key| == sz.key
      requires sz.block == buffercache.disk.geom.blocksize
      requires Stored(State().store, t, sz)
      modifies buffercache`blockmap, buffercache`curtime, buffercache`nreads
      modifies buffercache`diskreads, buffercache`diskwrites, buffercache.disk
      ensures buffercache.Valid() && InRange(Cache())
      ensures Shaped(t) && Readable(Path(t, key))
      ensures Cache() == AfterReads(old(Cache()), Path(t, key))
      ensures StoreOf(Cache()) == old(StoreOf(Cache()))
      ensures Find(t, key) == Absent ==> rc == NonExistent
      ensures Find(t, key) == Corrupt ==> rc == Insane
      ensures Find(t, key) == Refused ==> rc == NoSpace
      ensures Find(t, key).Found? && op == OpLookup ==> rc == NoError && value == Find(t, key).value
      ensures Find(t, key).Found? && op != OpLookup ==> rc == Unimplemented
      decreases t
    {
      hide CacheOk, InRange, StoreOf, BufferCache.State, DiskLatency.ValidGeometry, ReadBlock, AfterReads;
      hide Keys, Ptrs, Pairs, Fits, SameView, Less, Path, WellFormed, HasData, Stored, Find, Shaped, Readable;
      hide Child, FindIn, AtMost;
      PathReadable(Cache(), State().store, t, sz, key);
      StoredUnfold(State().store, t, sz);
      FindUnfold(t, key);
      value := [];
      ghost var start := Cache();
      var b := new BTreeNode.Empty();
      rc := FetchNode(b, node);
      PathUnfold(t, key);
      AfterReadsUnfold(start, Path(t, key));
      AfterReadsNothing(Cache());
      if rc != NoError {
        return;
      }
      if IsInner(b.info) {
        var offset := ScanSeparators(b, key);
        if b.info.numkeys > 0 {
          var ptr;
          rc, ptr := b.GetPtr(offset);
          rc, value := LookupOrUpdateInternal(ptr, op, key, t.kids[offset], sz);
          return;
        }
        rc := NonExistent;
      } else if IsLeaf(b.info) {
        rc, value := ScanLeaf(b, op, key);
      } else {
        rc := Insane;
      }
    }

    method Lookup(key: Key, ghost t: Tree, ghost sz: Sizes) returns (rc: ErrorT, value: Value)
      requires Mounted() && superblock.info.rootnode == t.addr && |key| == sz.key
      requires sz.block == buffercache.disk.geom.blocksize
      requires Stored(State().store, t, sz) && WellOrdered(t)
      modifies buffercache`blockmap, buffercache`curtime, buffercache`nreads
      modifies buffercache`diskreads, buffercache`diskwrites, buffercache.disk
      ensures Mounted() && State() == old(State())
      ensures rc == NoError || rc == NonExistent
      ensures rc == NoError <==> key in Contents(t)
      ensures key in Contents(t) ==> value == Contents(t)[key]
      ensures Shaped(t) && Readable(Path(t, key)) && OnDisk(old(Cache()), Path(t, key))
      ensures Cache() == AfterReads(old(Cache()), Path(t, key))
      ensures Distinct(Path(t, key))
      ensures View(Cache()) == View(old(Cache()))
      ensures Cache().nreads == old(Cache()).nreads + |Path(t, key)|
    {
      hide StoreOf, BufferCache.State, DiskLatency.ValidGeometry, AfterReads, SameView;
      LookupIsMapLookup(t, key);
      PathOnDisk(Cache(), State().store, t, sz, key);
      PathDistinct(State().store, t, sz, key);
      ReadsAreCounted(Cache(), Path(t, key));
      ReadsKeepView(Cache(), Path(t, key));
      rc, value := LookupOrUpdateInternal(superblock.info.rootnode, OpLookup, key, t, sz);
    }

    // ---- the sorted display -----------------------------------------------------------------

    /** The traversal in the sorted key/value mode: o is the output so far. It stops
        at the first block that is no tree node or lies past the end. */
    method DisplayInternal(node: SizeT, o: seq<Pair>, ghost t: Tree, ghost sz: Sizes)
      returns (rc: ErrorT, out: seq<Pair>)
      requires Ready() && node == t.addr
      requires sz.block == buffercache.disk.geom.blocksize
      requires Stored(State().store, t, sz)
      modifies buffercache`blockmap, buffercache`curtime, buffercache`nreads
      modifies buffercache`diskreads, buffercache`diskwrites, buffercache.disk
      ensures buffercache.Valid() && InRange(Cache())
      ensures Readable(Show(t).addrs)
      ensures Cache() == AfterReads(old(Cache()), Show(t).addrs)
      ensures StoreOf(Cache()) == old(StoreOf(Cache()))
      ensures rc == Show(t).rc
      ensures out == o + Show(t).pairs
      decreases t, 1
    {
      hide CacheOk, InRange, StoreOf, BufferCache.State, DiskLatency.ValidGeometry, ReadBlock, AfterReads;
      hide Keys, Ptrs, Pairs, Fits, SameView, Show, ShowAll, Readable, WellFormed, HasData, Stored;
      ShownReadable(Cache(), State().store, t, sz);
      StoredUnfold(State().store, t, sz);
      ShowUnfold(t);
      AfterReadsUnfold(Cache(), Show(t).addrs);
      out := o;
      var b := new BTreeNode.Empty();
      rc := FetchNode(b, node);
      AfterReadsNothing(Cache());
      if rc != NoError {
        return;
      }
      out := PrintNode(b, o);
      if IsInner(b.info) && b.info.numkeys > 0 {
        rc, out := DisplayChildren(b, out, t, sz);
        return;
      } else if !IsInner(b.info) && !IsLeaf(b.info) {
        rc := Insane;
      }
    }

    /** The loop over the pointers of an interior node. */
    method DisplayChildren(b: BTreeNode, o: seq<Pair>, ghost t: Tree, ghost sz: Sizes)
      returns (rc: ErrorT, out: seq<Pair>)
      requires Ready() && sz.block == buffercache.disk.geom.blocksize && t.Inner?
      requires Stored(State().store, t, sz) && Readable(ShowAll(t.kids).addrs)
      requires b.Editable() && b.AsNode() == State().store[t.addr] && b.info.numkeys > 0
      modifies buffercache`blockmap, buffercache`curtime, buffercache`nreads
      modifies buffercache`diskreads, buffercache`diskwrites, buffercache.disk
      ensures buffercache.Valid() && InRange(Cache())
      ensures Cache() == AfterReads(old(Cache()), ShowAll(t.kids).addrs)
      ensures StoreOf(Cache()) == old(StoreOf(Cache()))
      ensures rc == ShowAll(t.kids).rc
      ensures out == o + ShowAll(t.kids).pairs
      decreases t, 0
    {
      hide CacheOk, InRange, StoreOf, BufferCache.State, DiskLatency.ValidGeometry, ReadBlock, AfterReads;
      hide Keys, Ptrs, Pairs, Fits, SameView, Show, ShowAll, Readable, WellFormed, HasData, Stored;
      ghost var store, all := State().store, ShowAll(t.kids);
      ghost var final := AfterReads(Cache(), all.addrs);
      StoredUnfold(store, t, sz);
      rc, out := NoError, o;
      var offset := 0;
      assert t.kids[0..] == t.kids;
      while offset <= b.info.numkeys
        invariant 0 <= offset <= b.info.numkeys + 1
        invariant buffercache.Valid() && InRange(Cache()) && rc == NoError
        invariant StoreOf(Cache()) == store
        invariant Readable(ShowAll(t.kids[offset..]).addrs)
        invariant AfterReads(Cache(), ShowAll(t.kids[offset..]).addrs) == final
        invariant out + ShowAll(t.kids[offset..]).pairs == o + all.pairs
        invariant ShowAll(t.kids[offset..]).rc == all.rc
      {
        var ptr;
        rc, ptr := b.GetPtr(offset);
        ghost var c, before := Cache(), out;
        ghost var s, rest := Show(t.kids[offset]), ShowAll(t.kids[offset + 1..]);
        ShowAllUnfold(t.kids, offset);
        rc, out := DisplayInternal(ptr, out, t.kids[offset], sz);
        if rc != NoError {
          return;
        }
        ReadableParts(s.addrs, rest.addrs);
        AfterReadsConcat(c, s.addrs, rest.addrs);
        assert out + rest.pairs == before + (s.pairs + rest.pairs);
        offset := offset + 1;
      }
      assert t.kids[offset..] == [];
      ShowNothing();
      AfterReadsNothing(Cache());
    }

    /** Display in the sorted key/value mode: the pairs the lookup can find, in
        strictly increasing key order. The blocks of the tree are read in preorder, none
        twice exactly when its empty nodes lie in different blocks, as they do when there
        are none below the root. */
    method Display(ghost t: Tree, ghost sz: Sizes) returns (rc: ErrorT, out: seq<Pair>)
      requires Mounted() && superblock.info.rootnode == t.addr
      requires sz.block == buffercache.disk.geom.blocksize
      requires Stored(State().store, t, sz) && WellOrdered(t)
      modifies buffercache`blockmap, buffercache`curtime, buffercache`nreads
      modifies buffercache`diskreads, buffercache`diskwrites, buffercache.disk
      ensures Mounted() && State() == old(State()) && rc == NoError
      ensures StrictlySorted(out)
      ensures forall p: Pair :: p in out <==> p.0 in Contents(t) && Contents(t)[p.0] == p.1
      ensures Readable(Preorder(t)) && OnDisk(old(Cache()), Preorder(t))
      ensures Cache() == AfterReads(old(Cache()), Preorder(t))
      ensures Distinct(Preorder(t)) <==> EmptyNodesApart(t)
      ensures FilledBelow(t) ==> Distinct(Preorder(t))
      ensures View(Cache()) == View(old(Cache()))
      ensures Cache().nreads == old(Cache()).nreads + |Preorder(t)|
    {
      hide StoreOf, BufferCache.State, DiskLatency.ValidGeometry, AfterReads, SameView, Contents;
      hide Distinct, EmptyNodesApart, FilledBelow;
      DisplayMatchesLookup(t);
      ShowIsComplete(t);
      TreeOnDisk(Cache(), State().store, t, sz);
      ReadsAreCounted(Cache(), Preorder(t));
      ReadsKeepView(Cache(), Preorder(t));
      BlocksReadOnce(State().store, t, sz);
      var ignored;
      ignored, out := DisplayInternal(superblock.info.rootnode, [], t, sz);
      rc := NoError;
    }
  }

  /** The part of PrintNode that the sorted key/value mode keeps. */
  method PrintNode(b: BTreeNode, o: seq<Pair>) returns (out: seq<Pair>)
    requires b.Valid() && (IsLeaf(b.info) ==> Usable(b.AsNode()))
    ensures out == o + (if IsLeaf(b.info) then Pairs(b.AsNode()) else [])
  {
    hide Pairs, Fits;
    out := o;
    if IsLeaf(b.info) {
      var offset := 0;
      while offset < b.info.numkeys
        invariant 0 <= offset <= b.info.numkeys
        invariant out == o + Pairs(b.AsNode())[..offset]
      {
        var rc, key := b.GetKey(offset);
        KeyOfPair(b.AsNode(), offset);
        var value;
        rc, value := b.GetVal(offset);
        out := out + [(key, value)];
        offset := offset + 1;
      }
    }
  }

  lemma DiskHasBlocks(c: CacheState)
    requires CacheOk(c)
    ensures 0 < c.disk.geom.numblocks == |c.disk.blocks| <= BLOCK_LIMIT
  {
  }

  lemma BlocksReadOnce(store: seq<Node>, t: Tree, sz: Sizes)
    requires Stored(store, t, sz) && WellOrdered(t)
    ensures Distinct(Preorder(t)) <==> EmptyNodesApart(t)
    ensures FilledBelow(t) ==> Distinct(Preorder(t))
  {
    PreorderDistinctIff(store, t, sz);
    if FilledBelow(t) {
      PreorderDistinct(store, t, sz);
    }
  }

  lemma TreeOnDisk(c: CacheState, store: seq<Node>, t: Tree, sz: Sizes)
    requires |store| == |c.disk.blocks| && Stored(store, t, sz) && WellOrdered(t)
    ensures OnDisk(c, Preorder(t))
  {
    StoredInRange(store, t, sz);
  }

  lemma ShownReadable(c: CacheState, store: seq<Node>, t: Tree, sz: Sizes)
    requires CacheOk(c) && |store| == |c.disk.blocks| && Stored(store, t, sz)
    ensures Readable(Show(t).addrs)
  {
    StoredIsReadable(store, t, sz);
    ShowInTree(t);
  }

  /** What the node stored at the root of a tree is. */
  lemma StoredUnfold(store: seq<Node>, t: Tree, sz: Sizes)
    requires Stored(store, t, sz)
    ensures t.addr < BLOCK_LIMIT || t.addr < |store|
    ensures t.addr < |store| <==> !t.Beyond?
    ensures t.addr < |store| ==>
              var n := store[t.addr];
              && n.info.blocksize == sz.block
              && (t.Alien? <==> !IsInner(n.info) && !IsLeaf(n.info))
              && (t.Inner? <==> IsInner(n.info)) && (t.Leaf? <==> IsLeaf(n.info))
              && (!t.Alien? ==> Usable(n) && n.info.keysize == sz.key)
              && (t.Leaf? ==> Pairs(n) == t.pairs)
              && (t.Inner? ==>
                    && Keys(n) == t.seps && |t.seps| == n.info.numkeys
                    && |t.kids| == (if n.info.numkeys == 0 then 0 else n.info.numkeys + 1)
                    && forall i :: 0 <= i < |t.kids| ==>
                         Ptrs(n)[i] == t.kids[i].addr && Stored(store, t.kids[i], sz))
  {
  }

  lemma FindUnfold(t: Tree, key: Key)
    requires Shaped(t)
    ensures Find(t, key) ==
            if t.Beyond? then Refused
            else if t.Alien? then Corrupt
            else if t.Leaf? then
              (match FindIn(t.pairs, key)
               case Some(v) => Found(v)
               case None => Absent)
            else if t.seps == [] then Absent
            else Find(t.kids[Child(t.seps, key)], key)
  {
  }

  lemma ShowUnfold(t: Tree)
    ensures Show(t).addrs != [] && Show(t).addrs[0] == t.addr
    ensures Show(t).addrs[1..] == if t.Inner? then ShowAll(t.kids).addrs else []
    ensures Show(t).pairs ==
            if t.Leaf? then t.pairs else if t.Inner? then ShowAll(t.kids).pairs else []
    ensures Show(t).rc ==
            if t.Beyond? then NoSpace
            else if t.Alien? then Insane
            else if t.Leaf? then NoError
            else ShowAll(t.kids).rc
    ensures ShowAll([]) == Showing([], [], NoError)
  {
  }

  lemma ShowAllUnfold(kids: seq<Tree>, i: nat)
    requires i < |kids|
    ensures var s, r := Show(kids[i]), ShowAll(kids[i + 1..]);
            ShowAll(kids[i..]) ==
            if s.rc == NoError then Showing(s.pairs + r.pairs, s.addrs + r.addrs, r.rc) else s
  {
    assert kids[i..][0] == kids[i] && kids[i..][1..] == kids[i + 1..];
  }

  lemma ShowNothing()
    ensures ShowAll([]) == Showing([], [], NoError)
  {
  }

  lemma ReadableParts(a: seq<nat>, b: seq<nat>)
    requires Readable(a + b)
    ensures Readable(a) && Readable(b)
  {
    assert forall x :: x in a || x in b ==> x in a + b;
  }

  /** The scan over separators: the first that is not below the key, else the last
      pointer. */
  method ScanSeparators(b: BTreeNode, key: Key) returns (offset: SizeT)
    requires b.Editable() && IsInner(b.info)
    requires Usable(b.AsNode())
    ensures offset <= b.info.numkeys
    ensures offset == Child(Keys(b.AsNode()), key)
    ensures forall j :: 0 <= j < offset ==> Less(Keys(b.AsNode())[j], key)
    ensures offset < b.info.numkeys ==> !Less(Keys(b.AsNode())[offset], key)
  {
    hide Keys, Fits, Less;
    offset := 0;
    while offset < b.info.numkeys
      invariant 0 <= offset <= b.info.numkeys
      invariant forall j :: 0 <= j < offset ==> !AtMost(key, Keys(b.AsNode())[j])
    {
      var rc, testkey := b.GetKey(offset);
      if Less(key, testkey) || key == testkey {
        break;
      }
      offset := offset + 1;
    }
    ChildIs(Keys(b.AsNode()), key, offset);
    ChildPassesBelow(Keys(b.AsNode()), key, offset);
  }

  /** The scan over a leaf. */
  method ScanLeaf(b: BTreeNode, op: BTreeOp, key: Key) returns (rc: ErrorT, value: Value)
    requires b.Editable() && IsLeaf(b.info)
    requires Usable(b.AsNode())
    ensures var found := FindIn(Pairs(b.AsNode()), key);
            && (found == None ==> rc == NonExistent)
            && (found.Some? && op == OpLookup ==> rc == NoError && value == found.value)
            && (found.Some? && op != OpLookup ==> rc == Unimplemented)
  {
    hide Keys, Pairs, Fits;
    value := [];
    ghost var pairs := Pairs(b.AsNode());
    var offset := 0;
    assert pairs[0..] == pairs;
    while offset < b.info.numkeys
      invariant 0 <= offset <= b.info.numkeys
      invariant FindIn(pairs, key) == FindIn(pairs[offset..], key)
    {
      var testkey;
      rc, testkey := b.GetKey(offset);
      KeyOfPair(b.AsNode(), offset);
      assert pairs[offset..][0] == pairs[offset] && pairs[offset..][1..] == pairs[offset + 1..];
      if testkey == key {
        if op == OpLookup {
          rc, value := b.GetVal(offset);
        } else {
          rc := Unimplemented;
        }
        return;
      }
      offset := offset + 1;
    }
    rc := NonExistent;
  }

  lemma ReadsKeepView(c: CacheState, addrs: seq<nat>)
    requires CacheOk(c) && Readable(addrs) && InRange(c)
    ensures View(AfterReads(c, addrs)) == View(c)
    ensures AfterReads(c, addrs).disk.marked == c.disk.marked
    ensures CacheOk(AfterReads(c, addrs)) && AfterReads(c, addrs).disk.geom == c.disk.geom
  {
    hide AfterReads, View;
    ReadsKeep(c, addrs);
    SameViewIsEqualView(c, AfterReads(c, addrs));
    ReadsKeepMarks(c, addrs);
  }

  lemma {:induction false} ReadsKeepMarks(c: CacheState, addrs: seq<nat>)
    requires CacheOk(c) && Readable(addrs)
    ensures AfterReads(c, addrs).disk.marked == c.disk.marked
    decreases |addrs|
  {
    hide AfterReads, ReadBlock, SameView;
    if addrs == [] {
      AfterReadsNothing(c);
    } else {
      AfterReadsUnfold(c, addrs);
      ReadKeepsMarks(c, addrs[0]);
      ReadsKeepMarks(ReadBlock(c, addrs[0]).cache, addrs[1..]);
    }
  }

  lemma AllocateKeepsAny(v: Volume)
    requires CanAllocate(v)
    ensures forall chain :: VolumeOk(v, chain) ==>
              if chain == [] then Allocate(v) == Grant(v, NoSpace, 0)
              else Allocate(v).rc == NoError && Allocate(v).n == chain[0]
                   && VolumeOk(Allocate(v).volume, chain[1..])
  {
    hide VolumeOk;
    forall chain | VolumeOk(v, chain)
      ensures if chain == [] then Allocate(v) == Grant(v, NoSpace, 0)
              else Allocate(v).rc == NoError && Allocate(v).n == chain[0]
                   && VolumeOk(Allocate(v).volume, chain[1..])
    {
      AllocateKeeps(v, chain);
    }
  }

  lemma DeallocateKeepsAny(v: Volume, n: SizeT)
    requires CanFree(v, n)
    ensures 2 <= n && n in v.marked ==>
              forall chain :: VolumeOk(v, chain) ==> VolumeOk(Deallocate(v, n), [n] + chain)
  {
    hide VolumeOk;
    forall chain | 2 <= n && n in v.marked && VolumeOk(v, chain)
      ensures VolumeOk(Deallocate(v, n), [n] + chain)
    {
      DeallocateKeeps(v, chain, n);
    }
  }

  lemma KeyOfPair(n: Node, i: nat)
    requires Usable(n) && IsLeaf(n.info) && i < n.info.numkeys
    ensures Keys(n)[i] == Pairs(n)[i].0
  {
  }

  lemma {:induction false} ChildIs(seps: seq<Key>, key: Key, i: nat)
    requires i <= |seps|
    requires forall j :: 0 <= j < i ==> !AtMost(key, seps[j])
    requires i < |seps| ==> AtMost(key, seps[i])
    ensures Child(seps, key) == i
  {
  }

  lemma PathOnDisk(c: CacheState, store: seq<Node>, t: Tree, sz: Sizes, key: Key)
    requires |store| == |c.disk.blocks| && Stored(store, t, sz) && WellOrdered(t)
    ensures Shaped(t) && OnDisk(c, Path(t, key))
  {
    StoredIsShaped(store, t, sz);
    PathInTree(t, key);
    StoredInRange(store, t, sz);
  }

  lemma PathReadable(c: CacheState, store: seq<Node>, t: Tree, sz: Sizes, key: Key)
    requires CacheOk(c) && |store| == |c.disk.blocks| && Stored(store, t, sz)
    ensures Shaped(t) && Readable(Path(t, key))
  {
    StoredIsShaped(store, t, sz);
    PathInTree(t, key);
    StoredIsReadable(store, t, sz);
  }

  lemma ReadKeepsMarks(c: CacheState, n: nat)
    requires CacheOk(c)
    ensures ReadBlock(c, n).cache.disk.marked == c.disk.marked
  {
    hide DiskLatency.AccessTime, DiskLatency.HeadAfter, DiskLatency.ValidGeometry;
  }

  lemma WriteKeepsMarks(c: CacheState, n: nat, b: Block)
    requires CacheOk(c)
    ensures WriteBlock(c, n, b).cache.disk.marked == c.disk.marked
  {
    hide DiskLatency.AccessTime, DiskLatency.HeadAfter, DiskLatency.ValidGeometry;
  }

  lemma BlockIsPeek(c: CacheState, n: nat)
    requires CacheOk(c) && c.disk.geom.blocksize >= HEADER && n < |c.disk.blocks|
    ensures Peek(c, n) == Some(BlockAt(c, n))
    ensures |BlockAt(c, n)| == c.disk.geom.blocksize
    ensures Decode(BlockAt(c, n)) == StoreOf(c)[n]
    ensures DecodeInfo(BlockAt(c, n)) == StoreOf(c)[n].info
  {
  }
}
