/** The buffer cache looks like a plain array of blocks: every run of calls gives
    the answers of an array, whatever is evicted underneath, and a successful
    Detach leaves that array on the disk. */
module CacheRefinement {
  import opened Base
  import opened DiskLatency
  import opened Disk
  import opened CacheModel

  datatype Op =
    | ReadOp(n: nat)
    | WriteOp(n: nat, data: Block)
    | FlushOp(n: nat)
    | DetachOp
    | AttachOp

  datatype Reply = Reply(rc: ErrorT, out: Block)

  ghost predicate Legal(op: Op, blocksize: nat) {
    match op
    case ReadOp(n) => n < BLOCK_LIMIT
    case WriteOp(n, data) => n < BLOCK_LIMIT && |data| == blocksize
    case FlushOp(n) => n < BLOCK_LIMIT
    case _ => true
  }

  ghost predicate AllLegal(ops: seq<Op>, blocksize: nat) {
    forall i :: 0 <= i < |ops| ==> Legal(ops[i], blocksize)
  }

  ghost function Step(c: CacheState, op: Op): Outcome
    requires CacheOk(c)
  {
    match op
    case ReadOp(n) => ReadBlock(c, n)
    case WriteOp(n, data) => WriteBlock(c, n, data)
    case FlushOp(n) => FlushBlock(c, n)
    case DetachOp => Detach(c)
    case AttachOp => Attach(c)
  }

  // ---- each call keeps the invariant and acts on the view -------------------------

  /** What a call that only moves blocks around may do. */
  ghost predicate SameView(c: CacheState, d: CacheState) {
    && d.disk.geom == c.disk.geom && d.size == c.size
    && |d.disk.blocks| == |c.disk.blocks|
    && (forall n :: Peek(d, n) == Peek(c, n))
  }

  lemma SameViewIsEqualView(c: CacheState, d: CacheState)
    requires SameView(c, d)
    ensures View(d) == View(c)
  {
    forall n: nat
      ensures n in View(d) <==> n in View(c)
      ensures n in View(c) ==> View(d)[n] == View(c)[n]
    {
      ViewIsPeek(c, n);
      ViewIsPeek(d, n);
      assert Peek(d, n) == Peek(c, n);
    }
  }

  lemma DropKeeps(c: CacheState, n: nat)
    requires CacheOk(c) && n in c.resident
    requires n < |c.disk.blocks| && c.disk.blocks[n] == c.resident[n].data
    ensures CacheOk(Without(c, n)) && SameView(c, Without(c, n))
  {
    var d := Without(c, n);
    forall k | k in d.resident
      ensures EntryOk(d, k)
    {
      assert EntryOk(c, k);
    }
  }

  lemma WriteBackKeeps(c: CacheState, n: nat)
    requires CacheOk(c) && n in c.resident
    ensures EntryOk(c, n)
    ensures var w := WriteBack(c, n);
            && CacheOk(w.cache) && SameView(c, w.cache)
            && c.time <= w.cache.time && w.out == []
            && (w.rc == NoError <==> n < |c.disk.blocks|)
            && (w.rc == NoError ==> w.cache.disk.blocks == c.disk.blocks[n := c.resident[n].data])
            && (w.rc != NoError ==> w.rc == NoSpace && w.cache.disk == c.disk)
  {
    hide AccessTime, HeadAfter, ValidGeometry;
    assert EntryOk(c, n);
    var w := WriteBack(c, n);
    if n < c.disk.geom.numblocks {
      AccessIsPositive(c.disk.geom, c.disk.head, n, 1);
    }
    forall k | k in w.cache.resident
      ensures EntryOk(w.cache, k)
    {
      assert EntryOk(c, k);
    }
  }

  lemma EvictKeeps(c: CacheState)
    requires CacheOk(c)
    ensures var d := Evict(c);
            && CacheOk(d) && SameView(c, d)
            && c.time <= d.time
            && forall k :: k in d.resident ==> k in c.resident && d.resident[k] == c.resident[k]
  {
    hide AccessTime, HeadAfter, ValidGeometry, WriteBack;
    if Full(c) {
      var v := Victim(c.resident);
      assert EntryOk(c, v);
      if c.resident[v].dirty {
        WriteBackKeeps(c, v);
        var w := WriteBack(c, v);
        if w.rc == NoError {
          DropKeeps(w.cache, v);
        }
      } else {
        DropKeeps(c, v);
      }
    }
  }

  /** A resident entry is added or replaced. */
  lemma InsertKeeps(c: CacheState, n: nat, e: Entry)
    requires CacheOk(c) && n < BLOCK_LIMIT
    requires |e.data| == c.disk.geom.blocksize && e.lastaccessed <= c.time
    requires !e.dirty ==> n < |c.disk.blocks| && c.disk.blocks[n] == e.data
    ensures var d := c.(resident := c.resident[n := e]);
            && CacheOk(d)
            && forall k :: Peek(d, k) == if k == n then Some(e.data) else Peek(c, k)
  {
    var d := c.(resident := c.resident[n := e]);
    forall k | k in d.resident
      ensures EntryOk(d, k)
    {
      if k != n {
        assert EntryOk(c, k);
      }
    }
  }

  lemma LaterKeeps(c: CacheState, d: CacheState)
    requires CacheOk(c) && c.time <= d.time
    requires DiskOk(d.disk) && d.disk.geom == c.disk.geom
    requires d.disk.blocks == c.disk.blocks && d.resident == c.resident
    ensures CacheOk(d)
  {
    forall k | k in d.resident
      ensures EntryOk(d, k)
    {
      assert EntryOk(c, k);
    }
  }

  lemma ReadKeeps(c: CacheState, n: nat)
    requires CacheOk(c) && n < BLOCK_LIMIT
    ensures var r := ReadBlock(c, n);
            && CacheOk(r.cache) && SameView(c, r.cache)
            && c.time <= r.cache.time
            && (Peek(c, n).Some? ==> r.rc == NoError && r.out == Peek(c, n).value)
            && (Peek(c, n).None? ==> r.rc == NoSpace && r.out == [])
  {
    hide AccessTime, HeadAfter, ValidGeometry, Evict;
    var r := ReadBlock(c, n);
    if n in c.resident {
      assert EntryOk(c, n);
      InsertKeeps(c, n, c.resident[n].(lastaccessed := c.time));
      LaterKeeps(c.(resident := r.cache.resident), r.cache);
    } else {
      EvictKeeps(c);
      var c1 := Evict(c);
      assert Peek(c1, n) == Peek(c, n);
      if n < c.disk.geom.numblocks {
        AccessIsPositive(c1.disk.geom, c1.disk.head, n, 1);
        var c2 := c1.(time := r.cache.time);
        LaterKeeps(c1, c2);
        InsertKeeps(c2, n, Entry(c1.disk.blocks[n], r.cache.time, false));
        LaterKeeps(c2.(resident := r.cache.resident), r.cache);
        ReadAddsNothing(c, c1, r.cache, n);
      } else {
        LaterKeeps(c1, r.cache);
      }
    }
  }

  lemma ReadAddsNothing(c: CacheState, c1: CacheState, d: CacheState, n: nat)
    requires SameView(c, c1) && n < |c1.disk.blocks| && n !in c1.resident
    requires d.disk.geom == c1.disk.geom && d.disk.blocks == c1.disk.blocks && d.size == c1.size
    requires exists e: Entry :: e.data == c1.disk.blocks[n] && d.resident == c1.resident[n := e]
    ensures SameView(c, d)
  {
    forall k
      ensures Peek(d, k) == Peek(c, k)
    {
      assert Peek(c1, k) == Peek(c, k);
    }
  }

  lemma WriteKeeps(c: CacheState, n: nat, b: Block)
    requires CacheOk(c) && n < BLOCK_LIMIT && |b| == c.disk.geom.blocksize
    ensures var r := WriteBlock(c, n, b);
            && r.rc == NoError && r.out == []
            && CacheOk(r.cache) && r.cache.disk.geom == c.disk.geom && r.cache.size == c.size
            && |r.cache.disk.blocks| == |c.disk.blocks|
            && c.time <= r.cache.time
            && forall k :: Peek(r.cache, k) == if k == n then Some(b) else Peek(c, k)
  {
    hide Evict, Peek, ValidGeometry;
    EvictKeeps(c);
    var c1 := if n in c.resident then c else Evict(c);
    var r := WriteBlock(c, n, b);
    InsertKeeps(c1, n, Entry(b, c1.time, true));
    var c2 := c1.(resident := r.cache.resident);
    LaterKeeps(c2, r.cache);
    forall k
      ensures Peek(r.cache, k) == if k == n then Some(b) else Peek(c, k)
    {
      PeekIgnoresCounters(c2, r.cache, k);
      assert Peek(c1, k) == Peek(c, k);
    }
  }

  lemma PeekIgnoresCounters(c: CacheState, d: CacheState, n: nat)
    requires d.disk == c.disk && d.resident == c.resident
    ensures Peek(d, n) == Peek(c, n)
  {
  }

  lemma FlushKeeps(c: CacheState, n: nat)
    requires CacheOk(c)
    ensures var r := FlushBlock(c, n);
            && CacheOk(r.cache) && SameView(c, r.cache) && c.time <= r.cache.time
            && r.out == []
            && (n in c.resident && n >= |c.disk.blocks| ==> r.rc == NoSpace)
            && (n !in c.resident || n < |c.disk.blocks| ==> r.rc == NoError && n !in r.cache.resident)
  {
    hide WriteBack, ValidGeometry;
    if n in c.resident {
      assert EntryOk(c, n);
      if c.resident[n].dirty {
        WriteBackKeeps(c, n);
        var w := WriteBack(c, n);
        if w.rc == NoError {
          DropKeeps(w.cache, n);
        }
      } else {
        DropKeeps(c, n);
      }
    }
  }

  ghost predicate Synced(c: CacheState, k: nat) {
    k in c.resident && k < |c.disk.blocks| && c.disk.blocks[k] == c.resident[k].data
  }

  /** The state after writing back part of the resident blocks. */
  lemma {:induction false} WriteBackAllKeeps(c: CacheState, keys: seq<nat>)
    requires CacheOk(c)
    requires forall i :: 0 <= i < |keys| ==> keys[i] in c.resident
    ensures forall i :: 0 <= i < |keys| ==> EntryOk(c, keys[i])
    ensures var w := WriteBackAll(c, keys);
            && CacheOk(w.cache) && SameView(c, w.cache) && c.time <= w.cache.time
            && w.out == []
            && (w.rc == NoError <==> forall i :: 0 <= i < |keys| ==> keys[i] < |c.disk.blocks|)
            && (w.rc != NoError ==> w.rc == NoSpace)
            && (w.rc == NoError ==> forall i :: 0 <= i < |keys| ==>
                  w.cache.disk.blocks[keys[i]] == c.resident[keys[i]].data)
            && (forall k :: 0 <= k < |c.disk.blocks| && k !in c.resident ==>
                  w.cache.disk.blocks[k] == c.disk.blocks[k])
            && (forall k :: 0 <= k < |c.disk.blocks| && Synced(c, k) ==> Synced(w.cache, k))
    decreases |keys|
  {
    hide WriteBack, ValidGeometry;
    assert forall i :: 0 <= i < |keys| ==> EntryOk(c, keys[i]);
    if keys != [] {
      assert EntryOk(c, keys[0]);
      if !c.resident[keys[0]].dirty {
        WriteBackAllKeeps(c, keys[1..]);
        assert Synced(c, keys[0]);
      } else {
        WriteBackKeeps(c, keys[0]);
        var w := WriteBack(c, keys[0]);
        if w.rc == NoError {
          assert Synced(w.cache, keys[0]);
          WriteBackAllKeeps(w.cache, keys[1..]);
        }
      }
    }
  }

  /** Detach succeeds exactly when no resident block lies past the end of the disk;
      then every block of the view is on the disk and the cache is empty. Either way
      the view is unchanged. */
  lemma DetachKeeps(c: CacheState)
    requires CacheOk(c)
    ensures var r := Detach(c);
            && CacheOk(r.cache) && SameView(c, r.cache) && c.time <= r.cache.time
            && r.out == []
            && (r.rc == NoError <==> InRange(c))
            && (r.rc != NoError ==> r.rc == NoSpace && r.cache.resident == c.resident)
            && (r.rc == NoError ==> r.cache.resident == map[])
            && (r.rc == NoError ==> forall n :: 0 <= n < |c.disk.blocks| ==>
                  Some(r.cache.disk.blocks[n]) == Peek(c, n))
  {
    hide WriteBackAll, ValidGeometry;
    SortedKeysCorrect(c.resident.Keys);
    var keys := Order(c.resident);
    WriteBackAllKeeps(c, keys);
    var w := WriteBackAll(c, keys);
    if InRange(c) {
      forall n | 0 <= n < |c.disk.blocks|
        ensures Some(w.cache.disk.blocks[n]) == Peek(c, n)
      {
        if n in c.resident {
          var i :| 0 <= i < |keys| && keys[i] == n;
        }
      }
      forall n: nat
        ensures Peek(Detach(c).cache, n) == Peek(c, n)
      {
        if n in c.resident {
          assert n < |c.disk.blocks|;
        }
      }
    } else {
      var n :| n in c.resident && n >= |c.disk.blocks|;
      var i :| 0 <= i < |keys| && keys[i] == n;
      assert w.rc == NoSpace;
    }
  }

  lemma AttachKeeps(c: CacheState)
    requires CacheOk(c)
    ensures CacheOk(Attach(c).cache)
    ensures View(Attach(c).cache) == DiskView(c.disk.blocks)
  {
    assert forall n :: n in View(Attach(c).cache) <==> n in DiskView(c.disk.blocks);
  }

  lemma StepKeeps(c: CacheState, op: Op)
    requires CacheOk(c) && Legal(op, c.disk.geom.blocksize)
    ensures var d := Step(c, op).cache;
            && CacheOk(d) && c.time <= d.time
            && d.disk.geom == c.disk.geom && d.size == c.size
  {
    hide ReadBlock, WriteBlock, FlushBlock, Detach;
    match op
    case ReadOp(n) => ReadKeeps(c, n);
    case WriteOp(n, data) => WriteKeeps(c, n, data);
    case FlushOp(n) => FlushKeeps(c, n);
    case DetachOp => DetachKeeps(c);
    case AttachOp => AttachKeeps(c);
  }

  // ---- runs ---------------------------------------------------------------------------

  /** The state a sequence of calls leads to. */
  ghost function After(c: CacheState, ops: seq<Op>): (d: CacheState)
    requires CacheOk(c) && AllLegal(ops, c.disk.geom.blocksize)
    ensures CacheOk(d) && d.disk.geom == c.disk.geom && d.size == c.size && c.time <= d.time
    decreases |ops|
  {
    if ops == [] then c
    else
      StepKeeps(c, ops[0]);
      After(Step(c, ops[0]).cache, ops[1..])
  }

  ghost function Replies(c: CacheState, ops: seq<Op>): seq<Reply>
    requires CacheOk(c) && AllLegal(ops, c.disk.geom.blocksize)
    decreases |ops|
  {
    if ops == [] then []
    else
      StepKeeps(c, ops[0]);
      var o := Step(c, ops[0]);
      [Reply(o.rc, o.out)] + Replies(o.cache, ops[1..])
  }

  // ---- the reference: an array of blocks -------------------------------------------------

  /** An array of n blocks that also remembers what was written past its end. */
  ghost function ArrayStep(m: map<nat, Block>, n: nat, op: Op): (map<nat, Block>, Reply) {
    match op
    case ReadOp(k) => (m, if k in m then Reply(NoError, m[k]) else Reply(NoSpace, []))
    case WriteOp(k, data) => (m[k := data], Reply(NoError, []))
    case FlushOp(k) => (m, Reply(if k in m && k >= n then NoSpace else NoError, []))
    case DetachOp => (m, Reply(if Overflowed(m, n) then NoSpace else NoError, []))
    case AttachOp => (m, Reply(NoError, []))
  }

  ghost predicate Overflowed(m: map<nat, Block>, n: nat) {
    exists k :: k in m && k >= n
  }

  ghost function ArrayAfter(m: map<nat, Block>, n: nat, ops: seq<Op>): map<nat, Block>
    decreases |ops|
  {
    if ops == [] then m else ArrayAfter(ArrayStep(m, n, ops[0]).0, n, ops[1..])
  }

  ghost function ArrayReplies(m: map<nat, Block>, n: nat, ops: seq<Op>): seq<Reply>
    decreases |ops|
  {
    if ops == [] then []
    else [ArrayStep(m, n, ops[0]).1] + ArrayReplies(ArrayStep(m, n, ops[0]).0, n, ops[1..])
  }

  lemma StepRefines(c: CacheState, op: Op)
    requires CacheOk(c) && Legal(op, c.disk.geom.blocksize) && op != AttachOp
    ensures var o := Step(c, op);
            && View(o.cache) == ArrayStep(View(c), c.disk.geom.numblocks, op).0
            && Reply(o.rc, o.out) == ArrayStep(View(c), c.disk.geom.numblocks, op).1
  {
    hide ReadBlock, WriteBlock, FlushBlock, Detach, View;
    match op {
      case ReadOp(n) =>
        ReadKeeps(c, n);
        SameViewIsEqualView(c, ReadBlock(c, n).cache);
        ViewIsPeek(c, n);
      case WriteOp(n, data) =>
        WriteKeeps(c, n, data);
        WriteUpdatesView(c, WriteBlock(c, n, data).cache, n, data);
      case FlushOp(n) =>
        FlushKeeps(c, n);
        SameViewIsEqualView(c, FlushBlock(c, n).cache);
        ViewIsPeek(c, n);
      case DetachOp =>
        DetachKeeps(c);
        SameViewIsEqualView(c, Detach(c).cache);
        OverflowIsOutOfRange(c);
    }
  }

  lemma WriteUpdatesView(c: CacheState, d: CacheState, n: nat, b: Block)
    requires forall k :: Peek(d, k) == if k == n then Some(b) else Peek(c, k)
    ensures View(d) == View(c)[n := b]
  {
    forall k: nat
      ensures k in View(d) <==> k in View(c)[n := b]
      ensures k in View(d) ==> View(d)[k] == View(c)[n := b][k]
    {
      ViewIsPeek(c, k);
      ViewIsPeek(d, k);
      assert Peek(d, k) == if k == n then Some(b) else Peek(c, k);
    }
  }

  lemma OverflowIsOutOfRange(c: CacheState)
    requires CacheOk(c)
    ensures Overflowed(View(c), c.disk.geom.numblocks) <==> !InRange(c)
  {
    forall k: nat
      ensures k in View(c) && k >= c.disk.geom.numblocks
          <==> k in c.resident && k >= |c.disk.blocks|
    {
      ViewIsPeek(c, k);
    }
  }

  /** The main theorem: for every run of reads, writes, flushes and detaches of any
      block numbers, in range or not, the answers are those of an array of blocks
      and the final view is the final array. */
  lemma {:induction false} CacheRefinesArray(c: CacheState, ops: seq<Op>)
    requires CacheOk(c) && AllLegal(ops, c.disk.geom.blocksize)
    requires AttachOp !in ops
    ensures Replies(c, ops) == ArrayReplies(View(c), c.disk.geom.numblocks, ops)
    ensures View(After(c, ops)) == ArrayAfter(View(c), c.disk.geom.numblocks, ops)
    decreases |ops|
  {
    hide View, Step, ArrayStep;
    if ops != [] {
      StepKeeps(c, ops[0]);
      StepRefines(c, ops[0]);
      CacheRefinesArray(Step(c, ops[0]).cache, ops[1..]);
    }
  }

  /** The size of the cache, its contents and the head position are invisible: two
      caches with the same view answer every run alike. */
  lemma SizeIsInvisible(c: CacheState, d: CacheState, ops: seq<Op>)
    requires CacheOk(c) && CacheOk(d) && View(c) == View(d)
    requires c.disk.geom.numblocks == d.disk.geom.numblocks
    requires c.disk.geom.blocksize == d.disk.geom.blocksize
    requires AllLegal(ops, c.disk.geom.blocksize) && AttachOp !in ops
    ensures Replies(c, ops) == Replies(d, ops)
    ensures View(After(c, ops)) == View(After(d, ops))
  {
    CacheRefinesArray(c, ops);
    CacheRefinesArray(d, ops);
  }

  /** From an attached (empty) cache: after any run, Detach succeeds exactly when
      nothing was written past the end, and then the disk holds exactly the array
      the run describes. */
  lemma DetachMakesDurable(c: CacheState, ops: seq<Op>)
    requires CacheOk(c) && c.resident == map[]
    requires AllLegal(ops, c.disk.geom.blocksize) && AttachOp !in ops
    ensures var final := ArrayAfter(DiskView(c.disk.blocks), c.disk.geom.numblocks, ops);
            var r := Detach(After(c, ops));
            && (r.rc == NoError <==> !Overflowed(final, c.disk.geom.numblocks))
            && (r.rc == NoError ==>
                  r.cache.resident == map[] && DiskView(r.cache.disk.blocks) == final)
  {
    hide Detach;
    var d := After(c, ops);
    assert View(c) == DiskView(c.disk.blocks);
    CacheRefinesArray(c, ops);
    DetachKeeps(d);
    OverflowIsOutOfRange(d);
    var r := Detach(d).cache;
    SameViewIsEqualView(d, r);
    if r.resident == map[] {
      assert View(r) == DiskView(r.disk.blocks);
    }
  }
}
