/** The nodes a cache stands for, and how reading and writing nodes through the cache
    acts on them. */
module IndexState {
  import opened Base
  import opened Disk
  import opened DiskLatency
  import opened NodeLayout
  import opened CacheModel
  import opened CacheRefinement
  import opened CacheRuns

  ghost function BlockAt(c: CacheState, n: nat): (b: Block)
    requires CacheOk(c) && n < |c.disk.blocks|
    ensures |b| == c.disk.geom.blocksize
    ensures Peek(c, n) == Some(b)
  {
    assert n in c.resident ==> EntryOk(c, n);
    Peek(c, n).value
  }

  /** Every block of the view, decoded. */
  ghost function StoreOf(c: CacheState): (s: seq<Node>)
    requires CacheOk(c) && c.disk.geom.blocksize >= HEADER
    ensures |s| == |c.disk.blocks|
  {
    seq(|c.disk.blocks|, i requires 0 <= i < |c.disk.blocks| => Decode(BlockAt(c, i)))
  }

  lemma StoreOfSameView(c: CacheState, d: CacheState)
    requires CacheOk(c) && CacheOk(d) && c.disk.geom.blocksize >= HEADER
    requires SameView(c, d)
    ensures StoreOf(d) == StoreOf(c)
  {
    hide Decode, Peek;
    forall i | 0 <= i < |c.disk.blocks|
      ensures BlockAt(d, i) == BlockAt(c, i)
    {
      assert Peek(d, i) == Peek(c, i);
    }
  }

  /** Serializing a node through the cache changes the decoding of its own block to
      exactly that node and of no other block, whatever is evicted meanwhile. */
  lemma StoreOfWritten(c: CacheState, n: nat, node: Node, fill: seq<Byte>)
    requires CacheOk(c) && c.disk.geom.blocksize >= HEADER && n < |c.disk.blocks|
    requires WellFormed(node) && node.info.blocksize == c.disk.geom.blocksize
    requires |fill| == DataBytes(node.info)
    ensures var d := WriteBlock(c, n, Encode(node, fill)).cache;
            && CacheOk(d) && d.disk.geom == c.disk.geom
            && StoreOf(d) == StoreOf(c)[n := node]
  {
    hide Decode, Peek, Encode, WriteBlock;
    NodeRoundTrip(node, fill);
    WriteKeeps(c, n, Encode(node, fill));
    var d := WriteBlock(c, n, Encode(node, fill)).cache;
    forall i | 0 <= i < |c.disk.blocks|
      ensures BlockAt(d, i) == if i == n then Encode(node, fill) else BlockAt(c, i)
    {
      assert Peek(d, i) == if i == n then Some(Encode(node, fill)) else Peek(c, i);
    }
  }

  /** ... and a block written past the end shows in no decoding. */
  lemma StoreOfWrittenBeyond(c: CacheState, n: nat, b: Block)
    requires CacheOk(c) && c.disk.geom.blocksize >= HEADER
    requires |c.disk.blocks| <= n < BLOCK_LIMIT && |b| == c.disk.geom.blocksize
    ensures var d := WriteBlock(c, n, b).cache;
            && CacheOk(d) && d.disk.geom == c.disk.geom
            && StoreOf(d) == StoreOf(c)
  {
    hide Decode, Peek, WriteBlock;
    WriteKeeps(c, n, b);
    var d := WriteBlock(c, n, b).cache;
    forall i | 0 <= i < |c.disk.blocks|
      ensures BlockAt(d, i) == BlockAt(c, i)
    {
      assert Peek(d, i) == Peek(c, i);
    }
  }

  lemma StoreOfRead(c: CacheState, n: nat)
    requires CacheOk(c) && c.disk.geom.blocksize >= HEADER && n < BLOCK_LIMIT
    ensures CacheOk(ReadBlock(c, n).cache)
    ensures ReadBlock(c, n).cache.disk.geom == c.disk.geom
    ensures StoreOf(ReadBlock(c, n).cache) == StoreOf(c)
  {
    hide ReadBlock;
    ReadKeeps(c, n);
    StoreOfSameView(c, ReadBlock(c, n).cache);
  }

  lemma StoreOfMarks(c: CacheState, d: CacheState)
    requires CacheOk(c) && c.disk.geom.blocksize >= HEADER
    requires d.resident == c.resident && d.time == c.time
    requires d.disk == c.disk.(marked := d.disk.marked)
    ensures CacheOk(d) && StoreOf(d) == StoreOf(c)
  {
    forall n | n in d.resident
      ensures EntryOk(d, n)
    {
      assert EntryOk(c, n);
    }
    assert forall i :: 0 <= i < |c.disk.blocks| ==> BlockAt(d, i) == BlockAt(c, i);
  }

  // ---- a node through any run of the cache ---------------------------------------------

  lemma {:induction false} ArrayKeepsUnwritten(m: map<nat, Block>, n: nat, ops: seq<Op>, k: nat)
    requires k in m
    requires forall i :: 0 <= i < |ops| ==> !(ops[i].WriteOp? && ops[i].n == k)
    ensures k in ArrayAfter(m, n, ops) && ArrayAfter(m, n, ops)[k] == m[k]
    decreases |ops|
  {
    if ops != [] {
      ArrayKeepsUnwritten(ArrayStep(m, n, ops[0]).0, n, ops[1..], k);
    }
  }

  /** A node serialized to a block is what the block unserializes to after every run of
      calls that does not write that block: no eviction, flush, detach or refused
      request in between can lose or change it. */
  lemma NodeSurvivesRun(c: CacheState, n: nat, node: Node, fill: seq<Byte>, ops: seq<Op>)
    requires CacheOk(c) && n < BLOCK_LIMIT
    requires WellFormed(node) && node.info.blocksize == c.disk.geom.blocksize
    requires |fill| == DataBytes(node.info)
    requires AllLegal(ops, c.disk.geom.blocksize) && AttachOp !in ops
    requires forall i :: 0 <= i < |ops| ==> !(ops[i].WriteOp? && ops[i].n == n)
    ensures var w := WriteBlock(c, n, Encode(node, fill)).cache;
            && CacheOk(w) && w.disk.geom == c.disk.geom
            && var r := ReadBlock(After(w, ops), n);
            r.rc == NoError && |r.out| >= HEADER && Decode(r.out) == node
  {
    hide WriteBlock, ReadBlock, Encode, Decode, View, After;
    NodeRoundTrip(node, fill);
    var b := Encode(node, fill);
    WriteKeeps(c, n, b);
    var w := WriteBlock(c, n, b).cache;
    CacheRefinesArray(w, ops);
    ViewIsPeek(w, n);
    ArrayKeepsUnwritten(View(w), w.disk.geom.numblocks, ops, n);
    ReadKeeps(After(w, ops), n);
    ViewIsPeek(After(w, ops), n);
  }

  // ---- staying in range ----------------------------------------------------------------

  /** Whether something past the end is resident can be told from the view. */
  lemma InRangeIsInView(c: CacheState)
    ensures InRange(c) <==> forall n: nat :: Peek(c, n).Some? ==> n < |c.disk.blocks|
  {
    if n :| n in c.resident && n >= |c.disk.blocks| {
      assert Peek(c, n).Some?;
    }
  }

  lemma ReadKeepsInRange(c: CacheState, n: nat)
    requires CacheOk(c) && n < BLOCK_LIMIT
    ensures InRange(ReadBlock(c, n).cache) <==> InRange(c)
  {
    hide ReadBlock, Peek, InRange;
    ReadKeeps(c, n);
    InRangeIsInView(c);
    InRangeIsInView(ReadBlock(c, n).cache);
  }

  lemma WriteKeepsInRange(c: CacheState, n: nat, b: Block)
    requires CacheOk(c) && n < BLOCK_LIMIT && |b| == c.disk.geom.blocksize
    ensures InRange(WriteBlock(c, n, b).cache) <==> InRange(c) && n < |c.disk.blocks|
  {
    hide WriteBlock, InRange, Peek;
    WriteKeeps(c, n, b);
    var d := WriteBlock(c, n, b).cache;
    InRangeIsInView(c);
    InRangeIsInView(d);
    assert Peek(d, n).Some?;
    if n < |c.disk.blocks| {
      OnDiskIsInView(c, n);
    }
  }

  lemma OnDiskIsInView(c: CacheState, n: nat)
    requires n < |c.disk.blocks|
    ensures Peek(c, n).Some?
  {
  }

  // ---- sequences of block reads ----------------------------------------------------------

  ghost function Reads(addrs: seq<nat>): (ops: seq<Op>)
    ensures |ops| == |addrs|
  {
    seq(|addrs|, i requires 0 <= i < |addrs| => ReadOp(addrs[i]))
  }

  /** Block numbers the cache accepts, on the disk or past its end. */
  ghost predicate Readable(addrs: seq<nat>) {
    forall a :: a in addrs ==> a < BLOCK_LIMIT
  }

  ghost predicate OnDisk(c: CacheState, addrs: seq<nat>) {
    forall a :: a in addrs ==> a < |c.disk.blocks|
  }

  lemma OnDiskIsReadable(c: CacheState, addrs: seq<nat>)
    requires CacheOk(c) && OnDisk(c, addrs)
    ensures Readable(addrs)
  {
  }

  lemma ReadsAreLegal(c: CacheState, addrs: seq<nat>)
    requires Readable(addrs)
    ensures AllLegal(Reads(addrs), c.disk.geom.blocksize)
    ensures AttachOp !in Reads(addrs)
  {
    forall i | 0 <= i < |addrs|
      ensures addrs[i] < BLOCK_LIMIT
    {
      assert addrs[i] in addrs;
    }
  }

  lemma ReadsAreInRange(c: CacheState, addrs: seq<nat>)
    requires CacheOk(c) && OnDisk(c, addrs)
    ensures AllOpsInRange(Reads(addrs), c.disk.geom.numblocks)
  {
    forall i | 0 <= i < |addrs|
      ensures addrs[i] < |c.disk.blocks|
    {
      assert addrs[i] in addrs;
    }
  }

  /** The state after reading the listed blocks in order. */
  ghost function AfterReads(c: CacheState, addrs: seq<nat>): CacheState
    requires CacheOk(c) && Readable(addrs)
  {
    ReadsAreLegal(c, addrs);
    After(c, Reads(addrs))
  }

  lemma {:induction false} AfterReadsUnfold(c: CacheState, addrs: seq<nat>)
    requires CacheOk(c) && Readable(addrs) && addrs != []
    ensures addrs[0] < BLOCK_LIMIT && Readable(addrs[1..])
    ensures CacheOk(ReadBlock(c, addrs[0]).cache)
    ensures SameView(c, ReadBlock(c, addrs[0]).cache)
    ensures AfterReads(c, addrs) == AfterReads(ReadBlock(c, addrs[0]).cache, addrs[1..])
  {
    hide ReadBlock;
    assert addrs[0] in addrs && forall a :: a in addrs[1..] ==> a in addrs;
    ReadKeeps(c, addrs[0]);
    ReadsAreLegal(c, addrs);
    assert Reads(addrs)[0] == ReadOp(addrs[0]);
    assert Reads(addrs)[1..] == Reads(addrs[1..]);
  }

  lemma AfterReadsNothing(c: CacheState)
    requires CacheOk(c)
    ensures AfterReads(c, []) == c
  {
  }

  /** Reads leave the view alone and bring in nothing past the end, refused or not. */
  lemma {:induction false} ReadsKeep(c: CacheState, addrs: seq<nat>)
    requires CacheOk(c) && Readable(addrs)
    ensures var d := AfterReads(c, addrs);
            && CacheOk(d) && SameView(c, d) && d.nwrites == c.nwrites
            && (InRange(d) <==> InRange(c))
    decreases |addrs|
  {
    hide ReadBlock, AfterReads, SameView, Readable, InRange;
    if addrs == [] {
      AfterReadsNothing(c);
      SameViewReflexive(c);
    } else {
      var d := ReadBlock(c, addrs[0]).cache;
      AfterReadsUnfold(c, addrs);
      ReadKeepsInRange(c, addrs[0]);
      ReadIsCounted(c, addrs[0]);
      ReadsKeep(d, addrs[1..]);
      SameViewTransitive(c, d, AfterReads(c, addrs));
    }
  }

  /** Reads of blocks on the disk are counted one by one. */
  lemma {:induction false} ReadsAreCounted(c: CacheState, addrs: seq<nat>)
    requires CacheOk(c) && OnDisk(c, addrs)
    ensures Readable(addrs)
    ensures AfterReads(c, addrs).nreads == c.nreads + |addrs|
    decreases |addrs|
  {
    hide ReadBlock, AfterReads, SameView, Readable, OnDisk;
    OnDiskIsReadable(c, addrs);
    if addrs == [] {
      AfterReadsNothing(c);
    } else {
      var d := ReadBlock(c, addrs[0]).cache;
      AfterReadsUnfold(c, addrs);
      OnDiskHead(c, addrs);
      ReadIsCounted(c, addrs[0]);
      SameLength(c, d);
      OnDiskAgain(c, d, addrs[1..]);
      ReadsAreCounted(d, addrs[1..]);
    }
  }

  lemma OnDiskHead(c: CacheState, addrs: seq<nat>)
    requires OnDisk(c, addrs) && addrs != []
    ensures addrs[0] < |c.disk.blocks|
    ensures OnDisk(c, addrs[1..])
  {
    assert addrs[0] in addrs;
    assert forall a :: a in addrs[1..] ==> a in addrs;
  }

  lemma OnDiskAgain(c: CacheState, d: CacheState, addrs: seq<nat>)
    requires OnDisk(c, addrs) && |d.disk.blocks| == |c.disk.blocks|
    ensures OnDisk(d, addrs)
  {
  }

  lemma SameViewReflexive(c: CacheState)
    ensures SameView(c, c)
  {
  }

  lemma SameViewTransitive(a: CacheState, b: CacheState, c: CacheState)
    requires SameView(a, b) && SameView(b, c)
    ensures SameView(a, c)
  {
    hide Peek;
    assert forall n :: Peek(c, n) == Peek(b, n) == Peek(a, n);
  }

  lemma ReadIsCounted(c: CacheState, n: nat)
    requires CacheOk(c)
    ensures n < |c.disk.blocks| ==> ReadBlock(c, n).cache.nreads == c.nreads + 1
    ensures ReadBlock(c, n).cache.nwrites == c.nwrites
  {
    hide AccessTime, HeadAfter, ValidGeometry;
  }

  lemma {:induction false} AfterReadsConcat(c: CacheState, a: seq<nat>, b: seq<nat>)
    requires CacheOk(c) && Readable(a) && Readable(b)
    ensures Readable(a + b) && CacheOk(AfterReads(c, a))
    ensures AfterReads(c, a + b) == AfterReads(AfterReads(c, a), b)
    decreases |a|
  {
    hide ReadBlock, AfterReads, SameView;
    if a == [] {
      assert a + b == b;
      AfterReadsNothing(c);
    } else {
      assert (a + b)[1..] == a[1..] + b;
      AfterReadsUnfold(c, a);
      AfterReadsUnfold(c, a + b);
      AfterReadsConcat(ReadBlock(c, a[0]).cache, a[1..], b);
    }
  }

  lemma SameLength(c: CacheState, d: CacheState)
    requires SameView(c, d)
    ensures |d.disk.blocks| == |c.disk.blocks|
  {
  }
}
