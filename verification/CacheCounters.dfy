/** What each call of the cache counts, asks of the disk and leaves resident, exactly,
    and the same for whole runs of any calls, refused ones included. */
module CacheCounters {
  import opened Base
  import opened DiskLatency
  import opened Disk
  import opened CacheModel
  import opened CacheRefinement
  import opened CacheRuns

  // ---- eviction ------------------------------------------------------------------------

  /** Block v is what a call has to give up, and the disk has a place for it. */
  ghost predicate GivesUp(c: CacheState, v: nat) {
    Full(c) && v == Victim(c.resident) && v < |c.disk.blocks|
  }

  ghost predicate IsDirty(c: CacheState, n: nat) {
    n in c.resident && c.resident[n].dirty
  }

  /** Eviction takes the victim and no other block, asks for one write when the victim
      is dirty and on the disk, and counts the write-back of a dirty victim even when
      the disk refuses it. */
  lemma EvictTakesVictim(c: CacheState)
    requires CacheOk(c)
    ensures CacheOk(Evict(c)) && Extends(c, Evict(c))
    ensures forall k :: k in Evict(c).resident <==> k in c.resident && !GivesUp(c, k)
    ensures forall k :: k in Evict(c).resident ==> Evict(c).resident[k] == c.resident[k]
    ensures Requests(c, Evict(c)) ==
            if Full(c) && GivesUp(c, Victim(c.resident)) && IsDirty(c, Victim(c.resident))
            then [Request(true, Victim(c.resident), 1)] else []
    ensures Evict(c).ndiskwrites == c.ndiskwrites
              + (if Full(c) && IsDirty(c, Victim(c.resident)) then 1 else 0)
    ensures Evict(c).ndiskreads == c.ndiskreads
    ensures Evict(c).nreads == c.nreads && Evict(c).nwrites == c.nwrites
    ensures Evict(c).nallocs == c.nallocs && Evict(c).ndeallocs == c.ndeallocs
  {
    hide ValidGeometry, AccessTime, HeadAfter;
    EvictKeeps(c);
    if Full(c) {
      var v := Victim(c.resident);
      assert EntryOk(c, v);
      if c.resident[v].dirty && v < |c.disk.blocks| {
        OneServed(c, Evict(c), Request(true, v, 1));
      } else {
        NothingServed(c, Evict(c));
      }
    } else {
      NothingServed(c, c);
    }
  }

  // ---- what stays resident ---------------------------------------------------------------

  /** A read or write that misses, refused or not. */
  ghost predicate Misses(c: CacheState, op: Op) {
    (op.ReadOp? || op.WriteOp?) && op.n !in c.resident
  }

  ghost predicate Serves(c: CacheState, op: Op) {
    op.WriteOp? || (op.ReadOp? && Peek(c, op.n).Some?)
  }

  /** A read or write leaves its own block resident when it is served, gives up the
      victim on a miss, and leaves every other entry as it was. */
  lemma AccessResidents(c: CacheState, op: Op)
    requires CacheOk(c) && (op.ReadOp? || op.WriteOp?)
    ensures var d := Step(c, op).cache;
            && (op.n in d.resident <==> Serves(c, op))
            && forall k :: k != op.n ==>
                 && (k in d.resident <==> k in c.resident && !(Misses(c, op) && GivesUp(c, k)))
                 && (k in d.resident ==> d.resident[k] == c.resident[k])
  {
    hide ValidGeometry, AccessTime, HeadAfter, Evict, GivesUp;
    EvictTakesVictim(c);
  }

  /** A flush takes its own block out, unless the disk has no place for it, and leaves
      every other entry as it was. */
  lemma FlushResidents(c: CacheState, n: nat)
    requires CacheOk(c)
    ensures var d := FlushBlock(c, n).cache;
            && (n in d.resident <==> n in c.resident && n >= |c.disk.blocks|)
            && forall k :: k != n ==>
                 && (k in d.resident <==> k in c.resident)
                 && (k in d.resident ==> d.resident[k] == c.resident[k])
  {
    hide ValidGeometry, AccessTime, HeadAfter;
    assert n in c.resident ==> EntryOk(c, n);
  }

  // ---- what a call asks of the disk ------------------------------------------------------

  /** The leading keys that lie on the disk; all that do, when the keys ascend. */
  ghost function Below(keys: seq<nat>, n: nat): (r: seq<nat>)
    ensures forall i :: 0 <= i < |r| ==> r[i] in keys && r[i] < n
    ensures Ascending(keys) ==> forall k :: k in keys && k < n ==> k in r
    decreases |keys|
  {
    if keys == [] || keys[0] >= n then []
    else [keys[0]] + Below(keys[1..], n)
  }

  lemma {:induction false} WriteBackAllCounts(c: CacheState, keys: seq<nat>)
    requires CacheOk(c)
    requires forall i :: 0 <= i < |keys| ==> keys[i] in c.resident
    ensures forall i :: 0 <= i < |keys| ==> EntryOk(c, keys[i])
    ensures forall i :: 0 <= i < |Below(keys, |c.disk.blocks|)| ==>
              Below(keys, |c.disk.blocks|)[i] in c.resident
    ensures var w := WriteBackAll(c, keys);
            && Accounted(c, w.cache) && Extends(c, w.cache)
            && Requests(c, w.cache) == DirtyWrites(c.resident, Below(keys, |c.disk.blocks|))
            && w.cache.ndiskwrites == c.ndiskwrites
                 + CountOf(Requests(c, w.cache), true) + (if w.rc == NoError then 0 else 1)
            && CountOf(Requests(c, w.cache), false) == 0
    decreases |keys|
  {
    hide ValidGeometry, WriteBack, Accounted, Extends, Requests, SameView, AllInRange;
    assert forall i :: 0 <= i < |keys| ==> EntryOk(c, keys[i]);
    if keys == [] {
      NothingServed(c, c);
      AccountedExtends(c, c);
    } else {
      var n := |c.disk.blocks|;
      assert EntryOk(c, keys[0]);
      WriteBackKeeps(c, keys[0]);
      WriteBackAccounted(c, keys[0]);
      SameBlocks(c, keys[0]);
      var w := WriteBack(c, keys[0]).cache;
      AccountedExtends(c, w);
      if keys[0] >= n {
        assert Below(keys, n) == [];
      } else {
        assert Below(keys, n)[1..] == Below(keys[1..], n);
        if !c.resident[keys[0]].dirty {
          WriteBackAllCounts(c, keys[1..]);
        } else {
          WriteBackAllCounts(w, keys[1..]);
          var d := WriteBackAll(w, keys[1..]).cache;
          AccountedTransitive(c, w, d);
          AccountedExtends(c, d);
          ServedAppend(c, w, d);
          CountOne(Request(true, keys[0], 1));
          CountAppend(Requests(c, w), Requests(w, d), true);
          CountAppend(Requests(c, w), Requests(w, d), false);
        }
      }
    }
  }

  lemma SameBlocks(c: CacheState, n: nat)
    requires CacheOk(c) && n in c.resident
    ensures EntryOk(c, n)
    ensures var w := WriteBack(c, n).cache;
            |w.disk.blocks| == |c.disk.blocks| && w.resident == c.resident
  {
    assert EntryOk(c, n);
  }

  lemma {:induction false} WriteBackAllKeepsCalls(c: CacheState, keys: seq<nat>)
    requires DiskOk(c.disk) && Writable(c, keys)
    ensures var w := WriteBackAll(c, keys).cache;
            && w.ndiskreads == c.ndiskreads && w.nreads == c.nreads && w.nwrites == c.nwrites
            && w.nallocs == c.nallocs && w.ndeallocs == c.ndeallocs
    decreases |keys|
  {
    hide AccessTime, HeadAfter, ValidGeometry;
    if keys != [] {
      if !c.resident[keys[0]].dirty {
        WriteBackAllKeepsCalls(c, keys[1..]);
      } else if WriteBack(c, keys[0]).rc == NoError {
        WriteBackAllKeepsCalls(WriteBack(c, keys[0]).cache, keys[1..]);
      }
    }
  }

  lemma DetachIs(c: CacheState)
    requires CacheOk(c)
    ensures forall i :: 0 <= i < |Order(c.resident)| ==> EntryOk(c, Order(c.resident)[i])
    ensures var w := WriteBackAll(c, Order(c.resident));
            && Detach(c).rc == w.rc
            && Detach(c).cache == w.cache.(resident := Detach(c).cache.resident)
  {
    hide WriteBackAll, ValidGeometry;
    assert forall i :: 0 <= i < |Order(c.resident)| ==> EntryOk(c, Order(c.resident)[i]);
  }

  /** A Detach, failing or not, writes each dirty block that lies on the disk exactly
      once, in ascending order: the blocks past the end come last. */
  lemma DetachServes(c: CacheState)
    requires CacheOk(c)
    ensures forall i :: 0 <= i < |Below(Order(c.resident), |c.disk.blocks|)| ==>
              Below(Order(c.resident), |c.disk.blocks|)[i] in c.resident
    ensures var d := Detach(c);
            && Extends(c, d.cache)
            && Requests(c, d.cache)
               == DirtyWrites(c.resident, Below(Order(c.resident), |c.disk.blocks|))
            && d.cache.ndiskwrites == c.ndiskwrites
                 + CountOf(Requests(c, d.cache), true) + (if InRange(c) then 0 else 1)
            && CountOf(Requests(c, d.cache), false) == 0
            && d.cache.ndiskreads == c.ndiskreads
            && d.cache.nreads == c.nreads && d.cache.nwrites == c.nwrites
            && d.cache.nallocs == c.nallocs && d.cache.ndeallocs == c.ndeallocs
  {
    hide WriteBackAll, Detach, ValidGeometry, Accounted, Order, DirtyWrites, Below;
    DetachIs(c);
    DetachKeeps(c);
    WriteBackAllCounts(c, Order(c.resident));
    WriteBackAllKeepsCalls(c, Order(c.resident));
    var w := WriteBackAll(c, Order(c.resident)).cache;
    SameLog(c, w, Detach(c).cache);
  }

  lemma SameLog(c: CacheState, d: CacheState, e: CacheState)
    requires Extends(c, d) && e.disk == d.disk
    ensures Extends(c, e) && Requests(c, e) == Requests(c, d)
  {
  }

  lemma {:induction false} WriteBackAllSaves(c: CacheState, keys: seq<nat>)
    requires CacheOk(c) && Ascending(keys)
    requires forall i :: 0 <= i < |keys| ==> keys[i] in c.resident
    ensures forall i :: 0 <= i < |keys| ==> EntryOk(c, keys[i])
    ensures forall i :: 0 <= i < |keys| && keys[i] < |c.disk.blocks| ==>
              Synced(WriteBackAll(c, keys).cache, keys[i])
    decreases |keys|
  {
    hide WriteBack, ValidGeometry;
    assert forall i :: 0 <= i < |keys| ==> EntryOk(c, keys[i]);
    if keys != [] {
      var rest := keys[1..];
      assert EntryOk(c, keys[0]);
      WriteBackKeeps(c, keys[0]);
      var w := if c.resident[keys[0]].dirty then WriteBack(c, keys[0]).cache else c;
      if keys[0] < |c.disk.blocks| {
        assert Synced(w, keys[0]);
        WriteBackAllSaves(w, rest);
        WriteBackAllKeeps(w, rest);
        assert WriteBackAll(c, keys).cache == WriteBackAll(w, rest).cache;
        forall i | 0 <= i < |keys| && keys[i] < |c.disk.blocks|
          ensures Synced(WriteBackAll(c, keys).cache, keys[i])
        {
          assert i > 0 ==> keys[i] == rest[i - 1];
        }
      }
    }
  }

  /** After a Detach every block of the disk holds what the cache answered for it, even
      when the Detach fails because something lies past the end. */
  lemma DetachSaves(c: CacheState)
    requires CacheOk(c)
    ensures var d := Detach(c).cache;
            && |d.disk.blocks| == |c.disk.blocks|
            && forall n :: 0 <= n < |c.disk.blocks| ==> Some(d.disk.blocks[n]) == Peek(c, n)
  {
    hide WriteBackAll, Detach, ValidGeometry;
    var keys := Order(c.resident);
    SortedKeysCorrect(c.resident.Keys);
    DetachIs(c);
    WriteBackAllSaves(c, keys);
    WriteBackAllKeeps(c, keys);
    forall n | 0 <= n < |c.disk.blocks|
      ensures Some(WriteBackAll(c, keys).cache.disk.blocks[n]) == Peek(c, n)
    {
      if n in c.resident {
        var i :| 0 <= i < |keys| && keys[i] == n;
        assert Synced(WriteBackAll(c, keys).cache, keys[i]);
      }
    }
  }

  ghost function VictimWrite(c: CacheState, op: Op): seq<Request> {
    if Misses(c, op) && Full(c) && GivesUp(c, Victim(c.resident)) && IsDirty(c, Victim(c.resident))
    then [Request(true, Victim(c.resident), 1)] else []
  }

  /** What a read, write or flush asks of the disk: on a miss the write-back of a dirty
      victim and then, for a read on the disk, the read; for a flush the write-back of its
      own block when that is dirty. In particular a hit, and a flush of an absent block,
      ask for nothing. */
  lemma StepServes(c: CacheState, op: Op)
    requires CacheOk(c) && (op.ReadOp? || op.WriteOp? || op.FlushOp?)
    ensures Extends(c, Step(c, op).cache)
    ensures Requests(c, Step(c, op).cache) ==
            VictimWrite(c, op)
            + (if op.ReadOp? && Misses(c, op) && op.n < |c.disk.blocks|
               then [Request(false, op.n, 1)] else [])
            + (if op.FlushOp? && IsDirty(c, op.n) && op.n < |c.disk.blocks|
               then [Request(true, op.n, 1)] else [])
  {
    hide ValidGeometry, AccessTime, HeadAfter, Evict, WriteBack, Accounted, GivesUp, Requests, Extends;
    var d := Step(c, op).cache;
    if op.FlushOp? {
      FlushServes(c, op.n);
    } else {
      EvictTakesVictim(c);
      var c1 := if Misses(c, op) then Evict(c) else c;
      SameGeometry(c);
      NothingServed(c, c);
      AccountedExtends(c, c);
      if op.ReadOp? && Misses(c, op) && op.n < |c.disk.blocks| {
        OneServed(c1, d, Request(false, op.n, 1));
      } else {
        NothingServed(c1, d);
      }
      AccountedExtends(c1, d);
      ServedAppend(c, c1, d);
    }
  }

  lemma SameGeometry(c: CacheState)
    requires CacheOk(c)
    ensures ValidGeometry(c.disk.geom) && |c.disk.blocks| == c.disk.geom.numblocks
  {
  }

  lemma FlushServes(c: CacheState, n: nat)
    requires CacheOk(c)
    ensures Extends(c, FlushBlock(c, n).cache)
    ensures Requests(c, FlushBlock(c, n).cache) ==
            if IsDirty(c, n) && n < |c.disk.blocks| then [Request(true, n, 1)] else []
  {
    hide ValidGeometry, AccessTime, HeadAfter, WriteBack, Accounted;
    var d := FlushBlock(c, n).cache;
    if IsDirty(c, n) {
      assert EntryOk(c, n);
      WriteBackAccounted(c, n);
      AccountedExtends(c, WriteBack(c, n).cache);
      SameLog(c, WriteBack(c, n).cache, d);
    } else {
      NothingServed(c, d);
      AccountedExtends(c, d);
    }
  }

  // ---- what a call counts ----------------------------------------------------------------

  /** The disk refuses to take back a block during the call. */
  ghost predicate RefusesWriteBack(c: CacheState, op: Op) {
    match op
    case FlushOp(n) => n in c.resident && n >= |c.disk.blocks|
    case DetachOp => !InRange(c)
    case AttachOp => false
    case _ => Misses(c, op) && Full(c) && Victim(c.resident) >= |c.disk.blocks|
  }

  ghost function One(b: bool): nat {
    if b then 1 else 0
  }

  /** Every call counts itself once when it is served, and each disk counter moves by
      the requests of its kind and by one more for a request that is refused. */
  lemma StepCounts(c: CacheState, op: Op)
    requires CacheOk(c) && Legal(op, c.disk.geom.blocksize)
    ensures var r := Step(c, op);
            var d := r.cache;
            && Extends(c, d)
            && d.nwrites == c.nwrites + One(op.WriteOp?)
            && d.nreads == c.nreads + One(op.ReadOp? && r.rc == NoError)
            && d.nallocs == c.nallocs && d.ndeallocs == c.ndeallocs
            && d.ndiskreads == c.ndiskreads + CountOf(Requests(c, d), false)
                                 + One(op.ReadOp? && r.rc != NoError)
            && d.ndiskwrites == c.ndiskwrites + CountOf(Requests(c, d), true)
                                  + One(RefusesWriteBack(c, op))
  {
    hide ValidGeometry, AccessTime, HeadAfter, Evict, Requests, Extends, GivesUp, Detach;
    match op {
      case DetachOp => DetachServes(c);
      case AttachOp =>
        SameGeometry(c);
        NothingServed(c, Step(c, op).cache);
      case FlushOp(n) => FlushCounts(c, n);
      case _ => AccessCounts(c, op);
    }
  }

  lemma FlushCounts(c: CacheState, n: nat)
    requires CacheOk(c)
    ensures var d := FlushBlock(c, n).cache;
            && Extends(c, d)
            && d.nwrites == c.nwrites && d.nreads == c.nreads
            && d.nallocs == c.nallocs && d.ndeallocs == c.ndeallocs
            && d.ndiskreads == c.ndiskreads + CountOf(Requests(c, d), false)
            && d.ndiskwrites == c.ndiskwrites + CountOf(Requests(c, d), true)
                                  + One(RefusesWriteBack(c, FlushOp(n)))
  {
    hide ValidGeometry, AccessTime, HeadAfter, Extends, Requests;
    FlushServes(c, n);
    CountOne(Request(true, n, 1));
    assert n in c.resident ==> EntryOk(c, n);
  }

  lemma AccessCounts(c: CacheState, op: Op)
    requires CacheOk(c) && Legal(op, c.disk.geom.blocksize) && (op.ReadOp? || op.WriteOp?)
    ensures var r := Step(c, op);
            var d := r.cache;
            && Extends(c, d)
            && d.nwrites == c.nwrites + One(op.WriteOp?)
            && d.nreads == c.nreads + One(op.ReadOp? && r.rc == NoError)
            && d.nallocs == c.nallocs && d.ndeallocs == c.ndeallocs
            && d.ndiskreads == c.ndiskreads + CountOf(Requests(c, d), false)
                                 + One(op.ReadOp? && r.rc != NoError)
            && d.ndiskwrites == c.ndiskwrites + CountOf(Requests(c, d), true)
                                  + One(RefusesWriteBack(c, op))
  {
    hide ValidGeometry, AccessTime, HeadAfter, Evict, Requests, Extends;
    SameGeometry(c);
    EvictTakesVictim(c);
    StepServes(c, op);
    var a := VictimWrite(c, op);
    var b := if op.ReadOp? && Misses(c, op) && op.n < |c.disk.blocks| then [Request(false, op.n, 1)] else [];
    assert Requests(c, Step(c, op).cache) == a + b;
    CountAppend(a, b, true);
    CountAppend(a, b, false);
    if a != [] {
      CountOne(a[0]);
    }
    if b != [] {
      CountOne(b[0]);
    }
    if Full(c) {
      assert EntryOk(c, Victim(c.resident));
    }
  }

  // ---- whole runs ----------------------------------------------------------------------------

  ghost function WritesIn(ops: seq<Op>): nat {
    if ops == [] then 0 else One(ops[0].WriteOp?) + WritesIn(ops[1..])
  }

  /** The reads of a run that got the given answer. */
  ghost function ReadsAnswered(ops: seq<Op>, replies: seq<Reply>, rc: ErrorT): nat
    requires |replies| == |ops|
  {
    if ops == [] then 0
    else One(ops[0].ReadOp? && replies[0].rc == rc) + ReadsAnswered(ops[1..], replies[1..], rc)
  }

  ghost function RefusedWriteBacks(c: CacheState, ops: seq<Op>): nat
    requires CacheOk(c) && AllLegal(ops, c.disk.geom.blocksize)
    decreases |ops|
  {
    if ops == [] then 0
    else
      StepKeeps(c, ops[0]);
      One(RefusesWriteBack(c, ops[0])) + RefusedWriteBacks(Step(c, ops[0]).cache, ops[1..])
  }

  lemma {:induction false} RepliesLength(c: CacheState, ops: seq<Op>)
    requires CacheOk(c) && AllLegal(ops, c.disk.geom.blocksize)
    ensures |Replies(c, ops)| == |ops|
    decreases |ops|
  {
    hide Step;
    if ops != [] {
      StepKeeps(c, ops[0]);
      RepliesLength(Step(c, ops[0]).cache, ops[1..]);
    }
  }

  lemma ReplyIsServedOrRefused(c: CacheState, op: Op)
    requires CacheOk(c) && op.ReadOp?
    ensures Step(c, op).rc == NoError || Step(c, op).rc == NoSpace
  {
  }

  /** On every run of calls, in range or not, every counter is exact: writes count the
      writes asked for, reads the reads answered, disk reads the read requests and the
      reads refused, disk writes the write requests and the write-backs refused. */
  lemma {:induction false} RunCounts(c: CacheState, ops: seq<Op>)
    requires CacheOk(c) && AllLegal(ops, c.disk.geom.blocksize)
    ensures |Replies(c, ops)| == |ops|
    ensures var d, replies := After(c, ops), Replies(c, ops);
            && Extends(c, d)
            && d.nwrites == c.nwrites + WritesIn(ops)
            && d.nreads == c.nreads + ReadsAnswered(ops, replies, NoError)
            && d.nallocs == c.nallocs && d.ndeallocs == c.ndeallocs
            && d.ndiskreads == c.ndiskreads + CountOf(Requests(c, d), false)
                                 + ReadsAnswered(ops, replies, NoSpace)
            && d.ndiskwrites == c.ndiskwrites + CountOf(Requests(c, d), true)
                                  + RefusedWriteBacks(c, ops)
    decreases |ops|
  {
    hide Step, RefusesWriteBack, Extends, Requests;
    if ops == [] {
      SameGeometry(c);
      NothingServed(c, c);
      AccountedExtends(c, c);
    } else {
      var r := Step(c, ops[0]);
      StepKeeps(c, ops[0]);
      StepCounts(c, ops[0]);
      RunCounts(r.cache, ops[1..]);
      var d := After(r.cache, ops[1..]);
      ServedAppend(c, r.cache, d);
      CountAppend(Requests(c, r.cache), Requests(r.cache, d), true);
      CountAppend(Requests(c, r.cache), Requests(r.cache, d), false);
      assert Replies(c, ops)[0].rc == r.rc && Replies(c, ops)[1..] == Replies(r.cache, ops[1..]);
      if ops[0].ReadOp? {
        ReplyIsServedOrRefused(c, ops[0]);
      }
    }
  }
}
