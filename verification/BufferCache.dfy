/** The buffer cache as the source writes it (buffercache.cc): a map of blocks,
    a clock and counters, updated in place over a disk. Every method is proved to
    compute the function of the same name in CacheModel. */
module BufferCaches {
  import opened Base
  import opened Disk
  import opened CacheModel
  import opened CacheRefinement
  import opened CacheCounters
  import Bitmap
  import DiskLatency

  /** v is the oldest of the listed blocks, the smallest number among equals. */
  ghost predicate OldestOf(m: map<nat, Entry>, keys: seq<nat>, v: nat) {
    && v in m && v in keys
    && (forall k :: k in keys ==> k in m)
    && (forall k :: k in keys ==>
          m[v].lastaccessed < m[k].lastaccessed
          || (m[v].lastaccessed == m[k].lastaccessed && v <= k))
  }

  lemma OldestOfNext(m: map<nat, Entry>, keys: seq<nat>, i: nat, v: nat)
    requires Ascending(keys) && i < |keys| && keys[i] in m
    ensures i == 0 ==> OldestOf(m, keys[..i + 1], keys[i])
    ensures OldestOf(m, keys[..i], v) ==>
              if m[keys[i]].lastaccessed < m[v].lastaccessed
              then OldestOf(m, keys[..i + 1], keys[i])
              else OldestOf(m, keys[..i + 1], v)
  {
    assert keys[..i + 1] == keys[..i] + [keys[i]];
  }

  lemma OldestOfAllIsVictim(m: map<nat, Entry>, keys: seq<nat>, v: nat)
    requires forall k :: k in m ==> k in keys
    requires OldestOf(m, keys, v)
    ensures IsVictim(m, v)
  {
  }

  /** The scan of CheckDeleteOldest over the block map in key order. */
  method FindOldest(blockmap: map<nat, Entry>, curtime: real) returns (found: bool, oldestptr: nat)
    requires forall k :: k in blockmap ==> blockmap[k].lastaccessed <= curtime
    ensures found <==> blockmap != map[]
    ensures found ==> IsVictim(blockmap, oldestptr)
  {
    hide OldestOf;
    var keys := SortedKeys(blockmap.Keys);
    SortedKeysCorrect(blockmap.Keys);
    found, oldestptr := false, 0;
    var oldest := curtime + 1.0;
    for i := 0 to |keys|
      invariant !found ==> i == 0 && oldest == curtime + 1.0
      invariant found ==> oldestptr in blockmap && oldest == blockmap[oldestptr].lastaccessed
      invariant found ==> OldestOf(blockmap, keys[..i], oldestptr)
    {
      assert keys[i] in blockmap;
      OldestOfNext(blockmap, keys, i, oldestptr);
      if blockmap[keys[i]].lastaccessed < oldest {
        found, oldestptr, oldest := true, keys[i], blockmap[keys[i]].lastaccessed;
      }
    }
    assert keys[..|keys|] == keys;
    if found {
      OldestOfAllIsVictim(blockmap, keys, oldestptr);
    } else {
      assert blockmap.Keys == {};
    }
  }

  lemma ReadActsOnView(c: CacheState, n: nat)
    requires CacheOk(c) && n < BLOCK_LIMIT
    ensures var r := CacheModel.ReadBlock(c, n);
            && View(r.cache) == View(c)
            && (r.rc == NoError <==> n in View(c))
            && (r.rc == NoError ==> r.out == View(c)[n])
  {
    hide CacheModel.ReadBlock, View;
    ReadKeeps(c, n);
    SameViewIsEqualView(c, CacheModel.ReadBlock(c, n).cache);
    ViewIsPeek(c, n);
  }

  lemma DetachActsOnView(c: CacheState)
    requires CacheOk(c)
    ensures var r := CacheModel.Detach(c);
            && View(r.cache) == View(c)
            && (r.rc == NoError ==> DiskView(r.cache.disk.blocks) == View(c))
            && |r.cache.disk.blocks| == |c.disk.blocks|
            && (forall n :: 0 <= n < |c.disk.blocks| ==>
                  n in View(c) && r.cache.disk.blocks[n] == View(c)[n])
  {
    hide CacheModel.Detach;
    DetachKeeps(c);
    DetachSaves(c);
    forall n | 0 <= n < |c.disk.blocks|
      ensures n in View(c) && CacheModel.Detach(c).cache.disk.blocks[n] == View(c)[n]
    {
      ViewIsPeek(c, n);
    }
    var r := CacheModel.Detach(c);
    SameViewIsEqualView(c, r.cache);
    if r.rc == NoError {
      assert View(r.cache) == DiskView(r.cache.disk.blocks);
    }
  }

  lemma OrderIsWritable(c: CacheState)
    requires CacheOk(c)
    ensures Writable(c, Order(c.resident))
  {
    assert forall n :: n in c.resident ==> EntryOk(c, n);
  }

  lemma HeadOfWritable(c: CacheState, keys: seq<nat>)
    requires Writable(c, keys) && keys != []
    ensures keys[0] in c.resident && |c.resident[keys[0]].data| == c.disk.geom.blocksize
    ensures Writable(c, keys[1..])
  {
  }

  lemma WritableAgain(c: CacheState, d: CacheState, keys: seq<nat>)
    requires Writable(c, keys)
    requires d.resident == c.resident && d.disk.geom == c.disk.geom
    ensures Writable(d, keys)
  {
  }

  class BufferCache {
    const disk: DiskSystem
    var cachesize: SizeT
    var blockmap: map<nat, Entry>
    var curtime: real
    var allocs: nat
    var deallocs: nat
    var nreads: nat
    var nwrites: nat
    var diskreads: nat
    var diskwrites: nat

    ghost predicate Valid()
      reads this, disk, disk.bitmap
    {
      disk.Valid() && CacheOk(State())
    }

    ghost function State(): (c: CacheState)
      requires disk.Valid()
      reads this, disk, disk.bitmap
      ensures c.disk.geom == disk.geom && |c.disk.blocks| == disk.geom.numblocks
    {
      CacheState(disk.State(), cachesize, blockmap, curtime,
                 allocs, deallocs, nreads, nwrites, diskreads, diskwrites)
    }

    constructor (d: DiskSystem, size: SizeT)
      requires d.Valid()
      ensures Valid() && disk == d && cachesize == size
      ensures State() == NewCache(d.State(), size)
      ensures blockmap == map[] && curtime == 0.0 && allocs == deallocs == 0
      ensures nreads == nwrites == diskreads == diskwrites == 0
    {
      disk := d;
      cachesize := size;
      blockmap := map[];
      curtime := 0.0;
      allocs, deallocs, nreads, nwrites, diskreads, diskwrites := 0, 0, 0, 0, 0, 0;
    }

    /** One dirty resident block goes to the disk: the fragment that eviction, flush
        and detach share. */
    method WriteOut(n: nat) returns (rc: ErrorT)
      requires Valid() && n in blockmap
      modifies this`curtime, this`diskwrites, disk
      ensures disk.Valid()
      ensures EntryOk(old(State()), n)
      ensures State() == WriteBack(old(State()), n).cache
      ensures rc == WriteBack(old(State()), n).rc
    {
      hide DiskLatency.AccessTime, DiskLatency.HeadAfter, DiskLatency.ValidGeometry, Bitmap.Members;
      assert EntryOk(State(), n);
      var reqtime;
      rc, reqtime := disk.WriteOne(n, blockmap[n].data);
      curtime := curtime + reqtime;
      diskwrites := diskwrites + 1;
    }

    method CheckDeleteOldest() returns (rc: ErrorT)
      requires Valid()
      modifies this`blockmap, this`curtime, this`diskwrites, disk
      ensures Valid()
      ensures State() == Evict(old(State()))
      ensures forall k :: k in blockmap <==> k in old(blockmap) && !GivesUp(old(State()), k)
      ensures rc == NoError || (rc == NoSpace && blockmap == old(blockmap))
    {
      hide DiskLatency.AccessTime, DiskLatency.HeadAfter, DiskLatency.ValidGeometry, Bitmap.Members, WriteBack;
      EvictKeeps(State());
      EvictTakesVictim(State());
      rc := NoError;
      if |blockmap| < cachesize {
        return;
      }
      assert forall k :: k in blockmap ==> EntryOk(State(), k) && blockmap[k].lastaccessed <= curtime;
      var found, oldestptr := FindOldest(blockmap, curtime);
      if found {
        VictimUnique(blockmap, oldestptr, Victim(blockmap));
        if blockmap[oldestptr].dirty {
          WriteBackKeeps(State(), oldestptr);
          rc := WriteOut(oldestptr);
          if rc != NoError {
            return;
          }
        }
        blockmap := blockmap - {oldestptr};
      }
    }

    method Attach() returns (rc: ErrorT)
      requires Valid()
      modifies this`blockmap
      ensures Valid()
      ensures State() == CacheModel.Attach(old(State())).cache && rc == NoError
    {
      blockmap := map[];
      rc := NoError;
    }

    method Detach() returns (rc: ErrorT)
      requires Valid()
      modifies this`blockmap, this`curtime, this`diskwrites, disk
      ensures Valid()
      ensures State() == CacheModel.Detach(old(State())).cache
      ensures rc == CacheModel.Detach(old(State())).rc
      ensures View(State()) == View(old(State()))
      ensures rc == NoError ==> blockmap == map[] && DiskView(disk.data) == View(old(State()))
      ensures forall n :: 0 <= n < |disk.data| ==>
                n in View(old(State())) && disk.data[n] == View(old(State()))[n]
    {
      hide DiskLatency.AccessTime, DiskLatency.HeadAfter, DiskLatency.ValidGeometry, Bitmap.Members;
      hide WriteBack, EntryOk, Writable, View, SameView, Peek, DiskView;
      DetachKeeps(State());
      DetachActsOnView(State());
      rc := NoError;
      ghost var start := State();
      var keys := SortedKeys(blockmap.Keys);
      OrderIsWritable(start);
      assert keys[0..] == keys;
      for i := 0 to |keys|
        invariant Valid() && rc == NoError
        invariant blockmap == start.resident && keys == Order(start.resident)
        invariant Writable(start, keys) && Writable(State(), keys[i..])
        invariant WriteBackAll(start, keys) == WriteBackAll(State(), keys[i..])
      {
        HeadOfWritable(State(), keys[i..]);
        WriteBackKeeps(State(), keys[i]);
        assert keys[i..][1..] == keys[i + 1..];
        ghost var before := State();
        if blockmap[keys[i]].dirty {
          rc := WriteOut(keys[i]);
          if rc != NoError {
            return;
          }
        }
        WritableAgain(before, State(), keys[i + 1..]);
      }
      assert keys[|keys|..] == [];
      blockmap := map[];
    }

    /** On a hit the stored block; on a miss room is made, the disk is read and the
        block becomes resident and clean. A failed eviction is ignored. */
    method ReadBlock(inblocknum: SizeT) returns (rc: ErrorT, outblock: Block)
      requires Valid() && inblocknum < BLOCK_LIMIT
      modifies this`blockmap, this`curtime, this`nreads, this`diskreads, this`diskwrites, disk
      ensures Valid()
      ensures State() == CacheModel.ReadBlock(old(State()), inblocknum).cache
      ensures rc == CacheModel.ReadBlock(old(State()), inblocknum).rc
      ensures outblock == CacheModel.ReadBlock(old(State()), inblocknum).out
      ensures View(State()) == View(old(State()))
      ensures rc == NoError <==> inblocknum in View(old(State()))
      ensures rc == NoError ==> outblock == View(old(State()))[inblocknum]
      ensures nreads == old(nreads) + (if rc == NoError then 1 else 0)
    {
      hide DiskLatency.AccessTime, DiskLatency.HeadAfter, DiskLatency.ValidGeometry, Bitmap.Members;
      hide Evict, EntryOk, Peek, View, SameView;
      ReadKeeps(State(), inblocknum);
      ReadActsOnView(State(), inblocknum);
      if inblocknum in blockmap {
        outblock := blockmap[inblocknum].data;
        blockmap := blockmap[inblocknum := blockmap[inblocknum].(lastaccessed := curtime)];
        nreads := nreads + 1;
        rc := NoError;
      } else {
        var ignored := CheckDeleteOldest();
        var reqtime;
        rc, outblock, reqtime := disk.ReadOne(inblocknum);
        curtime := curtime + reqtime;
        diskreads := diskreads + 1;
        if rc != NoError {
          outblock := [];
          return;
        }
        blockmap := blockmap[inblocknum := Entry(outblock, curtime, false)];
        nreads := nreads + 1;
      }
    }

    /** The block becomes resident and dirty; no range check is made. */
    method WriteBlock(inblocknum: SizeT, inblock: Block) returns (rc: ErrorT)
      requires Valid() && inblocknum < BLOCK_LIMIT && |inblock| == disk.geom.blocksize
      modifies this`blockmap, this`curtime, this`nwrites, this`diskwrites, disk
      ensures Valid()
      ensures State() == CacheModel.WriteBlock(old(State()), inblocknum, inblock).cache
      ensures rc == NoError
      ensures View(State()) == View(old(State()))[inblocknum := inblock]
      ensures nwrites == old(nwrites) + 1
    {
      hide DiskLatency.AccessTime, DiskLatency.HeadAfter, DiskLatency.ValidGeometry, Bitmap.Members;
      hide Evict, EntryOk, Peek, View;
      WriteKeeps(State(), inblocknum, inblock);
      WriteUpdatesView(State(), CacheModel.WriteBlock(State(), inblocknum, inblock).cache, inblocknum, inblock);
      if inblocknum in blockmap {
        blockmap := blockmap[inblocknum := Entry(inblock, curtime, true)];
        nwrites := nwrites + 1;
      } else {
        var ignored := CheckDeleteOldest();
        blockmap := blockmap[inblocknum := Entry(inblock, curtime, true)];
        nwrites := nwrites + 1;
      }
      rc := NoError;
    }

    method FlushBlock(blocknum: SizeT) returns (rc: ErrorT)
      requires Valid()
      modifies this`blockmap, this`curtime, this`diskwrites, disk
      ensures Valid()
      ensures State() == CacheModel.FlushBlock(old(State()), blocknum).cache
      ensures rc == CacheModel.FlushBlock(old(State()), blocknum).rc
      ensures View(State()) == View(old(State()))
      ensures rc == NoError ==> blockmap == old(blockmap) - {blocknum}
      ensures rc != NoError ==> blockmap == old(blockmap)
    {
      hide DiskLatency.AccessTime, DiskLatency.HeadAfter, DiskLatency.ValidGeometry, Bitmap.Members;
      hide WriteBack, Peek, View, SameView;
      FlushKeeps(State(), blocknum);
      SameViewIsEqualView(State(), CacheModel.FlushBlock(State(), blocknum).cache);
      rc := NoError;
      if blocknum in blockmap {
        if blockmap[blocknum].dirty {
          rc := WriteOut(blocknum);
          if rc != NoError {
            return;
          }
        }
        blockmap := blockmap - {blocknum};
      }
    }

    method NotifyAllocateBlock(blocknum: SizeT) returns (rc: ErrorT)
      requires Valid() && blocknum < BLOCK_LIMIT
      modifies this`allocs, disk.bitmap
      ensures Valid()
      ensures rc == if blocknum < disk.geom.numblocks then NoError else NoSuchBlock
      ensures State() == Marked(old(State()), blocknum) && allocs == old(allocs) + 1
    {
      hide DiskLatency.ValidGeometry, Bitmap.Members;
      assert forall n :: n in blockmap ==> EntryOk(State(), n);
      Bitmap.OneRange(blocknum);
      allocs := allocs + 1;
      rc := disk.NotifyAllocateBlocks(blocknum, 1);
      assert forall n :: n in blockmap ==> EntryOk(State(), n);
    }

    method NotifyDeallocateBlock(blocknum: SizeT) returns (rc: ErrorT)
      requires Valid() && blocknum < BLOCK_LIMIT
      modifies this`deallocs, disk.bitmap
      ensures Valid()
      ensures rc == if blocknum < disk.geom.numblocks then NoError else NoSuchBlock
      ensures State() == Unmarked(old(State()), blocknum) && deallocs == old(deallocs) + 1
    {
      hide DiskLatency.ValidGeometry, Bitmap.Members;
      assert forall n :: n in blockmap ==> EntryOk(State(), n);
      Bitmap.OneRange(blocknum);
      deallocs := deallocs + 1;
      rc := disk.NotifyDeallocateBlocks(blocknum, 1);
      assert forall n :: n in blockmap ==> EntryOk(State(), n);
    }
  }
}
