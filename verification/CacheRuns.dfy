/** What whole runs of the buffer cache cost and what stays in it: the resident
    bound, the accounting of disk requests, the replacement order and the
    behaviour of a working set that fits. */
module CacheRuns {
  import opened Base
  import opened DiskLatency
  import opened Disk
  import opened CacheModel
  import opened CacheRefinement

  ghost predicate OpInRange(op: Op, numblocks: nat) {
    match op
    case ReadOp(n) => n < numblocks
    case WriteOp(n, _) => n < numblocks
    case _ => true
  }

  ghost predicate AllOpsInRange(ops: seq<Op>, numblocks: nat) {
    forall i :: 0 <= i < |ops| ==> OpInRange(ops[i], numblocks)
  }

  lemma {:induction false} AfterAppend(c: CacheState, ops: seq<Op>, op: Op)
    requires CacheOk(c) && AllLegal(ops, c.disk.geom.blocksize) && Legal(op, c.disk.geom.blocksize)
    ensures AllLegal(ops + [op], c.disk.geom.blocksize)
    ensures After(c, ops + [op]) == Step(After(c, ops), op).cache
    decreases |ops|
  {
    hide Step;
    assert AllLegal(ops + [op], c.disk.geom.blocksize);
    StepKeeps(After(c, ops), op);
    if ops == [] {
      assert ops + [op] == [op];
      assert [op][1..] == [];
    } else {
      assert (ops + [op])[0] == ops[0];
      assert (ops + [op])[1..] == ops[1..] + [op];
      StepKeeps(c, ops[0]);
      AfterAppend(Step(c, ops[0]).cache, ops[1..], op);
    }
  }

  // ---- the number of resident blocks ---------------------------------------------------

  function Max(a: nat, b: nat): nat {
    if a >= b then a else b
  }

  lemma EvictMakesRoom(c: CacheState)
    requires CacheOk(c) && InRange(c) && |c.resident| <= Max(c.size, 1)
    ensures |Evict(c).resident| + 1 <= Max(c.size, 1)
    ensures InRange(Evict(c))
    ensures Full(c) ==> Evict(c).resident == c.resident - {Victim(c.resident)}
    ensures !Full(c) ==> Evict(c) == c
  {
    hide AccessTime, HeadAfter, ValidGeometry;
    if Full(c) {
      var v := Victim(c.resident);
      assert EntryOk(c, v);
      RemoveOne(c.resident, v);
    }
  }

  lemma RemoveOne(m: map<nat, Entry>, n: nat)
    requires n in m
    ensures |m - {n}| == |m| - 1
  {
    assert (m - {n}).Keys == m.Keys - {n};
  }

  lemma InsertOne(m: map<nat, Entry>, n: nat, e: Entry)
    ensures |m[n := e]| == |m| + (if n in m then 0 else 1)
  {
    assert m[n := e].Keys == m.Keys + {n};
  }

  lemma ReadBoundsResident(c: CacheState, n: nat)
    requires CacheOk(c) && n < c.disk.geom.numblocks
    requires InRange(c) && |c.resident| <= Max(c.size, 1)
    ensures var d := ReadBlock(c, n).cache;
            InRange(d) && |d.resident| <= Max(c.size, 1)
  {
    hide AccessTime, HeadAfter, ValidGeometry, Evict;
    EvictMakesRoom(c);
    var r := ReadBlock(c, n).cache;
    if n in c.resident {
      InsertOne(c.resident, n, r.resident[n]);
    } else {
      InsertOne(Evict(c).resident, n, r.resident[n]);
    }
  }

  lemma WriteBoundsResident(c: CacheState, n: nat, b: Block)
    requires CacheOk(c) && n < c.disk.geom.numblocks
    requires InRange(c) && |c.resident| <= Max(c.size, 1)
    ensures var d := WriteBlock(c, n, b).cache;
            InRange(d) && |d.resident| <= Max(c.size, 1)
  {
    hide AccessTime, HeadAfter, ValidGeometry, Evict;
    EvictMakesRoom(c);
    var r := WriteBlock(c, n, b).cache;
    InsertOne(if n in c.resident then c.resident else Evict(c).resident, n, r.resident[n]);
  }

  lemma FlushBoundsResident(c: CacheState, n: nat)
    requires CacheOk(c) && InRange(c)
    ensures var d := FlushBlock(c, n).cache;
            InRange(d) && |d.resident| <= |c.resident|
  {
    hide AccessTime, HeadAfter, ValidGeometry;
    if n in c.resident {
      assert EntryOk(c, n);
      RemoveOne(c.resident, n);
    }
  }

  lemma StepBoundsResident(c: CacheState, op: Op)
    requires CacheOk(c) && Legal(op, c.disk.geom.blocksize)
    requires OpInRange(op, c.disk.geom.numblocks)
    requires InRange(c) && |c.resident| <= Max(c.size, 1)
    ensures var d := Step(c, op).cache;
            InRange(d) && |d.resident| <= Max(c.size, 1)
  {
    hide ReadBlock, WriteBlock, FlushBlock, Detach;
    match op
    case ReadOp(n) => ReadBoundsResident(c, n);
    case WriteOp(n, data) => WriteBoundsResident(c, n, data);
    case FlushOp(n) => FlushBoundsResident(c, n);
    case DetachOp => DetachKeeps(c);
    case AttachOp =>
  }

  /** On every in-range run from an attached cache the number of resident blocks
      never exceeds the larger of the cache size and 1, a cache of size 0 included. */
  lemma {:induction false} ResidentIsBounded(c: CacheState, ops: seq<Op>)
    requires CacheOk(c) && AllLegal(ops, c.disk.geom.blocksize)
    requires AllOpsInRange(ops, c.disk.geom.numblocks)
    requires InRange(c) && |c.resident| <= Max(c.size, 1)
    ensures InRange(After(c, ops)) && |After(c, ops).resident| <= Max(c.size, 1)
    decreases |ops|
  {
    hide Step;
    if ops != [] {
      StepKeeps(c, ops[0]);
      StepBoundsResident(c, ops[0]);
      ResidentIsBounded(Step(c, ops[0]).cache, ops[1..]);
    }
  }

  // ---- the clock is the sum of the requests ------------------------------------------------

  ghost predicate Extends(c: CacheState, d: CacheState) {
    && d.disk.geom == c.disk.geom && ValidGeometry(c.disk.geom)
    && |c.disk.log| <= |d.disk.log|
    && d.disk.log[..|c.disk.log|] == c.disk.log
    && AllInRange(c.disk.geom, d.disk.log[|c.disk.log|..])
  }

  /** The requests served between two states. */
  ghost function Requests(c: CacheState, d: CacheState): seq<Request>
    requires Extends(c, d)
  {
    d.disk.log[|c.disk.log|..]
  }

  /** Between two states the clock advances by exactly the time of the requests
      served, and the head is where the last of them left it. */
  ghost predicate Accounted(c: CacheState, d: CacheState) {
    && Extends(c, d)
    && d.disk.head == HeadAfterAll(c.disk.geom, c.disk.head, Requests(c, d))
    && d.time == c.time + TotalTime(c.disk.geom, c.disk.head, Requests(c, d))
  }

  lemma ServedAppend(a: CacheState, b: CacheState, c: CacheState)
    requires Extends(a, b) && Extends(b, c)
    ensures Extends(a, c) && Requests(a, c) == Requests(a, b) + Requests(b, c)
  {
    hide ValidGeometry;
    var n, m := |a.disk.log|, |b.disk.log|;
    assert c.disk.log[..m] == b.disk.log;
    assert c.disk.log[..n] == b.disk.log[..n];
    assert c.disk.log[n..] == b.disk.log[n..] + c.disk.log[m..];
  }

  lemma AccountedTransitive(a: CacheState, b: CacheState, c: CacheState)
    requires Accounted(a, b) && Accounted(b, c)
    ensures Accounted(a, c)
  {
    hide ValidGeometry, AccessTime, HeadAfter, TotalTime, HeadAfterAll, Extends, Requests;
    ServedAppend(a, b, c);
    ServedInRange(a, b);
    ServedInRange(b, c);
    TotalTimeAppend(a.disk.geom, a.disk.head, Requests(a, b), Requests(b, c));
  }

  lemma ServedInRange(a: CacheState, b: CacheState)
    requires Extends(a, b)
    ensures b.disk.geom == a.disk.geom
    ensures ValidGeometry(a.disk.geom) && AllInRange(a.disk.geom, Requests(a, b))
  {
  }

  lemma NothingServed(c: CacheState, d: CacheState)
    requires ValidGeometry(c.disk.geom)
    requires d.disk.geom == c.disk.geom && d.disk.log == c.disk.log
    requires d.disk.head == c.disk.head && d.time == c.time
    ensures Accounted(c, d) && Requests(c, d) == []
  {
  }

  lemma OneServed(c: CacheState, d: CacheState, r: Request)
    requires ValidGeometry(c.disk.geom) && d.disk.geom == c.disk.geom
    requires InRangeRequest(c.disk.geom, r.off, r.num)
    requires d.disk.log == c.disk.log + [r]
    requires d.disk.head == HeadAfter(c.disk.geom, r.off, r.num)
    requires d.time == c.time + AccessTime(c.disk.geom, c.disk.head, r.off, r.num)
    ensures Accounted(c, d) && Requests(c, d) == [r]
  {
    hide ValidGeometry, AccessTime, HeadAfter;
    assert d.disk.log[|c.disk.log|..] == [r];
    assert [r][..0] == [];
    assert TotalTime(c.disk.geom, c.disk.head, []) == 0.0;
  }

  lemma WriteBackAccounted(c: CacheState, n: nat)
    requires CacheOk(c) && n in c.resident
    ensures EntryOk(c, n)
    ensures var w := WriteBack(c, n);
            && Accounted(c, w.cache)
            && w.cache.ndiskwrites == c.ndiskwrites + 1
            && w.cache.nwrites == c.nwrites && w.cache.nreads == c.nreads
            && w.cache.ndiskreads == c.ndiskreads
            && (n < |c.disk.blocks| ==> w.rc == NoError && Requests(c, w.cache) == [Request(true, n, 1)])
            && (n >= |c.disk.blocks| ==> w.rc == NoSpace && Requests(c, w.cache) == [])
  {
    hide ValidGeometry, AccessTime, HeadAfter, Accounted, Requests;
    assert EntryOk(c, n);
    var w := WriteBack(c, n).cache;
    if n < |c.disk.blocks| {
      OneServed(c, w, Request(true, n, 1));
    } else {
      NothingServed(c, w);
    }
  }

  // ---- the counters ------------------------------------------------------------------------

  function CountOf(reqs: seq<Request>, write: bool): nat {
    if reqs == [] then 0
    else (if reqs[0].write == write then 1 else 0) + CountOf(reqs[1..], write)
  }

  lemma {:induction false} CountAppend(a: seq<Request>, b: seq<Request>, write: bool)
    ensures CountOf(a + b, write) == CountOf(a, write) + CountOf(b, write)
    decreases |a|
  {
    if a == [] {
      assert a + b == b;
    } else {
      assert (a + b)[1..] == a[1..] + b;
      CountAppend(a[1..], b, write);
    }
  }

  lemma CountOne(r: Request)
    ensures CountOf([r], r.write) == 1 && CountOf([r], !r.write) == 0
  {
    assert [r][1..] == [];
  }

  ghost function Dirty(m: map<nat, Entry>): set<nat> {
    set n | n in m && m[n].dirty
  }

  /** Each disk counter moved by the number of requests of its kind, no read went
      to the disk uncounted, and each disk write retired one dirty block or one
      write of the caller. */
  ghost predicate Charged(c: CacheState, d: CacheState) {
    && Accounted(c, d)
    && d.ndiskreads == c.ndiskreads + CountOf(Requests(c, d), false)
    && d.ndiskwrites == c.ndiskwrites + CountOf(Requests(c, d), true)
    && d.ndiskreads - d.nreads <= c.ndiskreads - c.nreads
    && d.ndiskwrites + |Dirty(d.resident)| - d.nwrites
       <= c.ndiskwrites + |Dirty(c.resident)| - c.nwrites
  }

  lemma ChargedTransitive(a: CacheState, b: CacheState, c: CacheState)
    requires Charged(a, b) && Charged(b, c)
    ensures Charged(a, c)
  {
    hide Extends, Requests, HeadAfterAll, TotalTime, Dirty;
    AccountedTransitive(a, b, c);
    ServedAppend(a, b, c);
    CountAppend(Requests(a, b), Requests(b, c), true);
    CountAppend(Requests(a, b), Requests(b, c), false);
  }

  lemma DirtyWithout(m: map<nat, Entry>, n: nat)
    requires n in m
    ensures |Dirty(m - {n})| == |Dirty(m)| - (if m[n].dirty then 1 else 0)
  {
    assert Dirty(m - {n}) == Dirty(m) - {n};
  }

  lemma DirtyWith(m: map<nat, Entry>, n: nat, e: Entry)
    ensures e.dirty ==> |Dirty(m[n := e])| <= |Dirty(m)| + 1
    ensures !e.dirty ==> |Dirty(m[n := e])| <= |Dirty(m)|
  {
    assert Dirty(m[n := e]) == if e.dirty then Dirty(m) + {n} else Dirty(m) - {n};
  }

  /** A step that serves nothing and does not touch the disk counters. */
  lemma QuietIsCharged(c: CacheState, d: CacheState)
    requires ValidGeometry(c.disk.geom) && d.disk == c.disk && d.time == c.time
    requires d.ndiskreads == c.ndiskreads && d.ndiskwrites == c.ndiskwrites
    requires d.nreads >= c.nreads
    requires |Dirty(d.resident)| - d.nwrites <= |Dirty(c.resident)| - c.nwrites
    ensures Charged(c, d)
  {
    hide ValidGeometry, Extends, Requests, Accounted, Dirty;
    NothingServed(c, d);
  }

  lemma WriteBackIsCharged(c: CacheState, n: nat)
    requires CacheOk(c) && n in c.resident && c.resident[n].dirty && n < |c.disk.blocks|
    ensures EntryOk(c, n)
    ensures WriteBack(c, n).rc == NoError && Charged(c, Without(WriteBack(c, n).cache, n))
  {
    hide ValidGeometry, AccessTime, HeadAfter;
    WriteBackAccounted(c, n);
    var w := WriteBack(c, n).cache;
    var d := Without(w, n);
    DirtyWithout(c.resident, n);
    OneServed(c, d, Request(true, n, 1));
    CountOne(Request(true, n, 1));
  }

  lemma EvictIsCharged(c: CacheState)
    requires CacheOk(c) && InRange(c)
    ensures Charged(c, Evict(c))
    ensures Evict(c).nreads == c.nreads && Evict(c).nwrites == c.nwrites
  {
    hide ValidGeometry, WriteBack, Charged;
    if Full(c) {
      var v := Victim(c.resident);
      assert EntryOk(c, v);
      if c.resident[v].dirty {
        WriteBackIsCharged(c, v);
        WriteBackAccounted(c, v);
      } else {
        DirtyWithout(c.resident, v);
        QuietIsCharged(c, Without(c, v));
      }
    } else {
      QuietIsCharged(c, c);
    }
  }

  lemma ReadIsCharged(c: CacheState, n: nat)
    requires CacheOk(c) && InRange(c) && n < c.disk.geom.numblocks
    ensures Charged(c, ReadBlock(c, n).cache)
  {
    hide ValidGeometry, AccessTime, HeadAfter, Evict, Charged;
    var r := ReadBlock(c, n).cache;
    if n in c.resident {
      TouchKeepsDirty(c.resident, n, c.time);
      QuietIsCharged(c, r);
    } else {
      EvictKeeps(c);
      EvictIsCharged(c);
      var c1 := Evict(c);
      DirtyWith(c1.resident, n, r.resident[n]);
      OneReadIsCharged(c1, r, n);
      ChargedTransitive(c, c1, r);
    }
  }

  lemma TouchKeepsDirty(m: map<nat, Entry>, n: nat, t: real)
    requires n in m
    ensures Dirty(m[n := m[n].(lastaccessed := t)]) == Dirty(m)
  {
  }

  lemma OneReadIsCharged(c: CacheState, d: CacheState, n: nat)
    requires ValidGeometry(c.disk.geom) && n < c.disk.geom.numblocks
    requires d.disk == Disk.Served(c.disk, false, n, 1)
    requires d.time == c.time + AccessTime(c.disk.geom, c.disk.head, n, 1)
    requires d.ndiskreads == c.ndiskreads + 1 && d.nreads == c.nreads + 1
    requires d.ndiskwrites == c.ndiskwrites && d.nwrites == c.nwrites
    requires |Dirty(d.resident)| <= |Dirty(c.resident)|
    ensures Charged(c, d)
  {
    hide ValidGeometry, AccessTime, HeadAfter, Extends, Requests, Accounted, Dirty;
    OneServed(c, d, Request(false, n, 1));
    CountOne(Request(false, n, 1));
  }

  lemma WriteIsCharged(c: CacheState, n: nat, b: Block)
    requires CacheOk(c) && InRange(c)
    ensures Charged(c, WriteBlock(c, n, b).cache)
  {
    hide ValidGeometry, Evict, Charged;
    var r := WriteBlock(c, n, b).cache;
    EvictKeeps(c);
    EvictIsCharged(c);
    if n in c.resident {
      DirtyWith(c.resident, n, Entry(b, c.time, true));
      QuietIsCharged(c, r);
    } else {
      var c1 := Evict(c);
      DirtyWith(c1.resident, n, Entry(b, c1.time, true));
      QuietIsCharged(c1, r);
      ChargedTransitive(c, c1, r);
    }
  }

  lemma FlushIsCharged(c: CacheState, n: nat)
    requires CacheOk(c) && InRange(c)
    ensures Charged(c, FlushBlock(c, n).cache)
  {
    hide ValidGeometry, WriteBack, Charged;
    if n in c.resident {
      assert EntryOk(c, n);
      if c.resident[n].dirty {
        WriteBackIsCharged(c, n);
      } else {
        DirtyWithout(c.resident, n);
        QuietIsCharged(c, Without(c, n));
      }
    } else {
      QuietIsCharged(c, c);
    }
  }

  // ---- Detach ---------------------------------------------------------------------------------

  /** One write request for each dirty block among keys, in that order. */
  ghost function DirtyWrites(m: map<nat, Entry>, keys: seq<nat>): seq<Request>
    requires forall i :: 0 <= i < |keys| ==> keys[i] in m
    decreases |keys|
  {
    if keys == [] then []
    else
      (if m[keys[0]].dirty then [Request(true, keys[0], 1)] else [])
      + DirtyWrites(m, keys[1..])
  }

  lemma {:induction false} WriteBackAllServes(c: CacheState, keys: seq<nat>)
    requires CacheOk(c)
    requires forall i :: 0 <= i < |keys| ==> keys[i] in c.resident
    ensures forall i :: 0 <= i < |keys| ==> EntryOk(c, keys[i])
    ensures var w := WriteBackAll(c, keys).cache;
            && Accounted(c, w)
            && w.ndiskreads == c.ndiskreads
            && w.nwrites == c.nwrites && w.nreads == c.nreads
            && (InRange(c) ==>
                  && Requests(c, w) == DirtyWrites(c.resident, keys)
                  && w.ndiskwrites == c.ndiskwrites + |DirtyWrites(c.resident, keys)|)
    decreases |keys|
  {
    hide ValidGeometry, WriteBack, Accounted, Extends, Requests;
    assert forall i :: 0 <= i < |keys| ==> EntryOk(c, keys[i]);
    if keys == [] {
      NothingServed(c, c);
    } else if !c.resident[keys[0]].dirty {
      WriteBackAllServes(c, keys[1..]);
    } else {
      WriteBackKeeps(c, keys[0]);
      WriteBackAccounted(c, keys[0]);
      var w := WriteBack(c, keys[0]).cache;
      if keys[0] < |c.disk.blocks| {
        WriteBackAllServes(w, keys[1..]);
        var d := WriteBackAll(w, keys[1..]).cache;
        AccountedTransitive(c, w, d);
        AccountedExtends(c, w);
        AccountedExtends(w, d);
        ServedAppend(c, w, d);
      }
    }
  }

  lemma AccountedExtends(c: CacheState, d: CacheState)
    requires Accounted(c, d)
    ensures Extends(c, d)
  {
  }

  lemma {:induction false} DirtyWritesCount(m: map<nat, Entry>, keys: seq<nat>)
    requires forall i :: 0 <= i < |keys| ==> keys[i] in m
    requires Ascending(keys)
    ensures |DirtyWrites(m, keys)| == |Dirty(m) * Elements(keys)|
    ensures CountOf(DirtyWrites(m, keys), true) == |DirtyWrites(m, keys)|
    ensures CountOf(DirtyWrites(m, keys), false) == 0
    decreases |keys|
  {
    if keys == [] {
      assert Elements(keys) == {};
    } else {
      var k, rest := keys[0], keys[1..];
      DirtyWritesCount(m, rest);
      ElementsOfCons(keys);
      DirtyOfCons(m, k, Elements(rest));
      if m[k].dirty {
        assert DirtyWrites(m, keys)[1..] == DirtyWrites(m, rest);
      } else {
        assert DirtyWrites(m, keys) == DirtyWrites(m, rest);
      }
    }
  }

  lemma ElementsOfCons(keys: seq<nat>)
    requires keys != [] && Ascending(keys)
    ensures Elements(keys) == {keys[0]} + Elements(keys[1..])
    ensures keys[0] !in Elements(keys[1..])
  {
  }

  lemma DirtyOfCons(m: map<nat, Entry>, k: nat, rest: set<nat>)
    requires k in m && k !in rest
    ensures |Dirty(m) * ({k} + rest)| == |Dirty(m) * rest| + (if m[k].dirty then 1 else 0)
  {
    if m[k].dirty {
      assert Dirty(m) * ({k} + rest) == {k} + Dirty(m) * rest;
    } else {
      assert Dirty(m) * ({k} + rest) == Dirty(m) * rest;
    }
  }

  lemma DetachShape(c: CacheState)
    requires CacheOk(c) && InRange(c)
    ensures forall i :: 0 <= i < |Order(c.resident)| ==> EntryOk(c, Order(c.resident)[i])
    ensures Detach(c).cache == WriteBackAll(c, Order(c.resident)).cache.(resident := map[])
  {
    hide ValidGeometry, WriteBackAll, SameView;
    WriteBackAllKeeps(c, Order(c.resident));
  }

  lemma OrderCoversDirty(m: map<nat, Entry>)
    ensures Dirty(m) * Elements(Order(m)) == Dirty(m)
    ensures Ascending(Order(m))
  {
    SortedKeysCorrect(m.Keys);
  }

  /** A Detach in range writes each dirty block exactly once, in ascending order of
      block number, and nothing else. */
  lemma DetachWritesDirtyOnce(c: CacheState)
    requires CacheOk(c) && InRange(c)
    ensures var d := Detach(c).cache;
            && Charged(c, d)
            && Requests(c, d) == DirtyWrites(c.resident, Order(c.resident))
            && d.ndiskwrites == c.ndiskwrites + |Dirty(c.resident)|
            && d.ndiskreads == c.ndiskreads
  {
    hide ValidGeometry, WriteBackAll, Detach, HeadAfterAll, TotalTime, DirtyWrites, CountOf, Order;
    DetachShape(c);
    var keys := Order(c.resident);
    WriteBackAllServes(c, keys);
    OrderCoversDirty(c.resident);
    DirtyWritesCount(c.resident, keys);
    assert Dirty(map[]) == {};
  }

  // ---- whole runs -----------------------------------------------------------------------------

  lemma StepIsCharged(c: CacheState, op: Op)
    requires CacheOk(c) && Legal(op, c.disk.geom.blocksize)
    requires InRange(c) && OpInRange(op, c.disk.geom.numblocks)
    ensures Charged(c, Step(c, op).cache)
  {
    hide ReadBlock, WriteBlock, FlushBlock, Detach, Charged;
    match op
    case ReadOp(n) => ReadIsCharged(c, n);
    case WriteOp(n, data) => WriteIsCharged(c, n, data);
    case FlushOp(n) => FlushIsCharged(c, n);
    case DetachOp => DetachWritesDirtyOnce(c);
    case AttachOp =>
      assert Dirty(Attach(c).cache.resident) == {};
      QuietIsCharged(c, Attach(c).cache);
  }

  lemma {:induction false} RunIsCharged(c: CacheState, ops: seq<Op>)
    requires CacheOk(c) && AllLegal(ops, c.disk.geom.blocksize)
    requires InRange(c) && |c.resident| <= Max(c.size, 1)
    requires AllOpsInRange(ops, c.disk.geom.numblocks)
    ensures Charged(c, After(c, ops))
    decreases |ops|
  {
    hide Charged, Step, ValidGeometry;
    if ops == [] {
      QuietIsCharged(c, c);
    } else {
      var d := Step(c, ops[0]).cache;
      StepKeeps(c, ops[0]);
      StepBoundsResident(c, ops[0]);
      StepIsCharged(c, ops[0]);
      RunIsCharged(d, ops[1..]);
      ChargedTransitive(c, d, After(d, ops[1..]));
    }
  }

  /** On every in-range run from construction: disk writes plus blocks still dirty
      never exceed the writes asked for, disk reads never exceed the reads asked
      for, both disk counters are the true number of requests served, and the clock
      is the sum of their times. */
  lemma CountersAreHonest(disk: DiskState, size: nat, ops: seq<Op>)
    requires DiskOk(disk) && AllLegal(ops, disk.geom.blocksize)
    requires AllOpsInRange(ops, disk.geom.numblocks)
    ensures CacheOk(NewCache(disk, size))
    ensures var c := NewCache(disk, size);
            var d := After(c, ops);
            && Extends(c, d)
            && d.ndiskwrites + |Dirty(d.resident)| <= d.nwrites
            && d.ndiskreads <= d.nreads
            && d.ndiskreads == CountOf(Requests(c, d), false)
            && d.ndiskwrites == CountOf(Requests(c, d), true)
            && d.time == TotalTime(disk.geom, disk.head, Requests(c, d))
  {
    var c := NewCache(disk, size);
    assert Dirty(c.resident) == {};
    RunIsCharged(c, ops);
  }

  lemma EvictIsAccounted(c: CacheState)
    requires CacheOk(c)
    ensures Accounted(c, Evict(c))
  {
    hide ValidGeometry, WriteBack, Accounted;
    if Full(c) {
      var v := Victim(c.resident);
      assert EntryOk(c, v);
      if c.resident[v].dirty {
        WriteBackAccounted(c, v);
        var w := WriteBack(c, v);
        if w.rc == NoError {
          NothingServed(w.cache, Without(w.cache, v));
          AccountedTransitive(c, w.cache, Without(w.cache, v));
        }
      } else {
        NothingServed(c, Without(c, v));
      }
    } else {
      NothingServed(c, c);
    }
  }

  lemma ReadIsAccounted(c: CacheState, n: nat)
    requires CacheOk(c)
    ensures Accounted(c, ReadBlock(c, n).cache)
  {
    hide ValidGeometry, Evict, Accounted, AccessTime, HeadAfter;
    var r := ReadBlock(c, n).cache;
    if n in c.resident {
      NothingServed(c, r);
    } else {
      var c1 := Evict(c);
      EvictIsAccounted(c);
      if n < c.disk.geom.numblocks {
        OneServed(c1, r, Request(false, n, 1));
      } else {
        NothingServed(c1, r);
      }
      AccountedTransitive(c, c1, r);
    }
  }

  lemma StepIsAccounted(c: CacheState, op: Op)
    requires CacheOk(c)
    ensures Accounted(c, Step(c, op).cache)
  {
    hide ValidGeometry, Evict, Accounted, ReadBlock, WriteBack, WriteBackAll;
    var d := Step(c, op).cache;
    match op {
      case ReadOp(n) => ReadIsAccounted(c, n);
      case WriteOp(n, data) =>
        var c1 := if n in c.resident then c else Evict(c);
        EvictIsAccounted(c);
        NothingServed(c, c);
        NothingServed(c1, d);
        AccountedTransitive(c, c1, d);
      case FlushOp(n) =>
        if n in c.resident && c.resident[n].dirty {
          assert EntryOk(c, n);
          WriteBackAccounted(c, n);
          NothingServed(WriteBack(c, n).cache, d);
          AccountedTransitive(c, WriteBack(c, n).cache, d);
        } else {
          NothingServed(c, d);
        }
      case DetachOp =>
        WriteBackAllServes(c, Order(c.resident));
        var w := WriteBackAll(c, Order(c.resident)).cache;
        NothingServed(w, d);
        AccountedTransitive(c, w, d);
      case AttachOp => NothingServed(c, d);
    }
  }

  /** On every run at all, refused requests included, the clock advances by the time
      of the requests served and the head follows them. */
  lemma {:induction false} ClockIsSumOfRequests(c: CacheState, ops: seq<Op>)
    requires CacheOk(c) && AllLegal(ops, c.disk.geom.blocksize)
    ensures Accounted(c, After(c, ops))
    decreases |ops|
  {
    hide Accounted, Step, ValidGeometry;
    if ops == [] {
      NothingServed(c, c);
    } else {
      var d := Step(c, ops[0]).cache;
      StepKeeps(c, ops[0]);
      StepIsAccounted(c, ops[0]);
      ClockIsSumOfRequests(d, ops[1..]);
      AccountedTransitive(c, d, After(d, ops[1..]));
    }
  }
}
