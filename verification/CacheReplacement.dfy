/** Which block leaves the cache, and what happens when nothing has to: the
    replacement order of CheckDeleteOldest against true least-recently-used, and the
    cost of a run whose blocks all fit. */
module CacheReplacement {
  import opened Base
  import opened DiskLatency
  import opened Disk
  import opened CacheModel
  import opened CacheRefinement
  import opened CacheRuns

  /** Reads and writes refresh a block; a flush does not. */
  predicate Touches(op: Op, n: nat) {
    (op.ReadOp? || op.WriteOp?) && op.n == n
  }

  /** The call neither refreshes v nor removes b on request. */
  predicate Spares(op: Op, v: nat, b: nat) {
    !Touches(op, v) && op != FlushOp(b) && op != DetachOp && op != AttachOp
  }

  /** b and v are resident and b was stamped strictly later. */
  ghost predicate Newer(c: CacheState, b: nat, v: nat) {
    b in c.resident && v in c.resident
    && c.resident[v].lastaccessed < c.resident[b].lastaccessed
  }

  lemma EvictSparesNewer(c: CacheState, v: nat, b: nat)
    requires CacheOk(c) && Newer(c, b, v)
    ensures v in Evict(c).resident ==> Newer(Evict(c), b, v)
  {
    hide AccessTime, HeadAfter, ValidGeometry;
    EvictKeeps(c);
    if Full(c) {
      var x := Victim(c.resident);
      assert x != b;
    }
  }

  lemma StepSparesNewer(c: CacheState, op: Op, v: nat, b: nat)
    requires CacheOk(c) && Legal(op, c.disk.geom.blocksize)
    requires Newer(c, b, v) && Spares(op, v, b)
    ensures v in Step(c, op).cache.resident ==> Newer(Step(c, op).cache, b, v)
  {
    hide AccessTime, HeadAfter, ValidGeometry, Evict, WriteBack;
    EvictSparesNewer(c, v, b);
    EvictKeeps(c);
    StepKeeps(c, op);
    assert EntryOk(c, v) && EntryOk(c, b);
  }

  lemma StepKeepsAbsent(c: CacheState, op: Op, v: nat)
    requires CacheOk(c) && Legal(op, c.disk.geom.blocksize)
    requires v !in c.resident && !Touches(op, v)
    ensures v !in Step(c, op).cache.resident
  {
    hide AccessTime, HeadAfter, ValidGeometry, Evict, WriteBack, WriteBackAll;
    EvictKeeps(c);
  }

  /** Along any run that does not refresh v and does not remove b on request, the
      block stamped later is still there as long as the earlier one is. */
  lemma {:induction false} NewerOutlives(c: CacheState, ops: seq<Op>, v: nat, b: nat)
    requires CacheOk(c) && AllLegal(ops, c.disk.geom.blocksize)
    requires v in c.resident ==> Newer(c, b, v)
    requires forall i :: 0 <= i < |ops| ==> Spares(ops[i], v, b)
    ensures v in After(c, ops).resident ==> Newer(After(c, ops), b, v)
    decreases |ops|
  {
    hide Step, Newer;
    if ops != [] {
      StepKeeps(c, ops[0]);
      if v in c.resident {
        StepSparesNewer(c, ops[0], v, b);
      } else {
        StepKeepsAbsent(c, ops[0], v);
      }
      NewerOutlives(Step(c, ops[0]).cache, ops[1..], v, b);
    }
  }

  lemma StepKeepsStamp(c: CacheState, op: Op, v: nat)
    requires CacheOk(c) && Legal(op, c.disk.geom.blocksize) && !Touches(op, v)
    requires v in Step(c, op).cache.resident
    ensures v in c.resident
    ensures Step(c, op).cache.resident[v].lastaccessed == c.resident[v].lastaccessed
  {
    hide AccessTime, HeadAfter, ValidGeometry, Evict, WriteBack, WriteBackAll;
    EvictKeeps(c);
  }

  lemma {:induction false} RunKeepsStamp(c: CacheState, ops: seq<Op>, v: nat)
    requires CacheOk(c) && AllLegal(ops, c.disk.geom.blocksize)
    requires forall i :: 0 <= i < |ops| ==> !Touches(ops[i], v)
    requires v in After(c, ops).resident
    ensures v in c.resident
    ensures After(c, ops).resident[v].lastaccessed == c.resident[v].lastaccessed
    decreases |ops|
  {
    hide Step;
    if ops != [] {
      StepKeeps(c, ops[0]);
      RunKeepsStamp(Step(c, ops[0]).cache, ops[1..], v);
      StepKeepsStamp(c, ops[0], v);
    }
  }

  /** A served read or write leaves its block resident with the current time. */
  lemma TouchStamps(c: CacheState, op: Op)
    requires CacheOk(c) && Legal(op, c.disk.geom.blocksize)
    requires op.ReadOp? || op.WriteOp?
    ensures var o := Step(c, op);
            o.rc == NoError ==>
              op.n in o.cache.resident && o.cache.resident[op.n].lastaccessed == o.cache.time
  {
    hide AccessTime, HeadAfter, ValidGeometry, Evict;
  }

  /** The replacement promise in the strength the code keeps it: block v is touched,
      then some disk request is served, at the latest the one that fetches b, and block
      b is touched. From then on, as long as v is not touched again and b is not
      flushed, b is never given up while v is still resident. */
  lemma LaterTouchOutlives(c: CacheState, touchV: Op, mid: seq<Op>, touchB: Op, rest: seq<Op>)
    requires CacheOk(c)
    requires AllLegal([touchV] + mid + [touchB] + rest, c.disk.geom.blocksize)
    requires (touchV.ReadOp? || touchV.WriteOp?) && (touchB.ReadOp? || touchB.WriteOp?)
    requires touchV.n != touchB.n
    requires forall i :: 0 <= i < |mid| ==> !Touches(mid[i], touchV.n)
    requires forall i :: 0 <= i < |rest| ==> Spares(rest[i], touchV.n, touchB.n)
    ensures Legal(touchV, c.disk.geom.blocksize) && Legal(touchB, c.disk.geom.blocksize)
    ensures AllLegal(mid, c.disk.geom.blocksize) && AllLegal(rest, c.disk.geom.blocksize)
    ensures CacheOk(Step(c, touchV).cache)
    ensures Step(c, touchV).cache.disk.geom == c.disk.geom
    ensures var c1 := Step(c, touchV).cache;
            var c3 := Step(After(c1, mid), touchB).cache;
            CacheOk(c3) && c3.disk.geom == c.disk.geom && Extends(c1, c3)
    ensures var c1 := Step(c, touchV).cache;
            var c3 := Step(After(c1, mid), touchB);
            c3.rc == NoError && Requests(c1, c3.cache) != [] ==>
              var c4 := After(c3.cache, rest);
              touchV.n in c4.resident ==> touchB.n in c4.resident
  {
    hide Step, Accounted, Extends, Requests;
    LegalParts(touchV, mid, touchB, rest, c.disk.geom.blocksize);
    StepKeeps(c, touchV);
    var c1 := Step(c, touchV).cache;
    var c2 := After(c1, mid);
    StepKeeps(c2, touchB);
    TouchStamps(c2, touchB);
    var c3 := Step(c2, touchB).cache;
    ClockIsSumOfRequests(c1, mid);
    StepIsAccounted(c2, touchB);
    AccountedTransitive(c1, c2, c3);
    ClockMovesIff(c1, c3);
    if Step(c2, touchB).rc == NoError && Requests(c1, c3) != [] {
      if touchV.n in c3.resident {
        StepKeepsStamp(c2, touchB, touchV.n);
        RunKeepsStamp(c1, mid, touchV.n);
        TouchedIsServed(c, touchV, touchV.n);
      }
      NewerOutlives(c3, rest, touchV.n, touchB.n);
    }
  }

  /** The clock stands still exactly as long as no disk request is served. */
  lemma ClockMovesIff(c: CacheState, d: CacheState)
    requires Accounted(c, d)
    ensures Extends(c, d) && c.time <= d.time
    ensures c.time < d.time <==> Requests(c, d) != []
  {
    hide AccessTime, HeadAfter, TotalTime, HeadAfterAll, ValidGeometry;
    ServedInRange(c, d);
    ServingTakesTime(c.disk.geom, c.disk.head, Requests(c, d));
    if Requests(c, d) == [] {
      NoTime(c.disk.geom, c.disk.head);
    }
  }

  lemma NoTime(g: Geometry, h: Head)
    requires ValidGeometry(g)
    ensures TotalTime(g, h, []) == 0.0
  {
  }

  lemma LegalParts(a: Op, mid: seq<Op>, b: Op, rest: seq<Op>, blocksize: nat)
    requires AllLegal([a] + mid + [b] + rest, blocksize)
    ensures Legal(a, blocksize) && Legal(b, blocksize)
    ensures AllLegal(mid, blocksize) && AllLegal(rest, blocksize)
  {
    var all := [a] + mid + [b] + rest;
    assert all[0] == a && all[1 + |mid|] == b;
    assert forall i :: 0 <= i < |mid| ==> all[1 + i] == mid[i];
    assert forall i :: 0 <= i < |rest| ==> all[2 + |mid| + i] == rest[i];
  }

  // ---- against true least-recently-used -----------------------------------------------

  /** Position in the run of the last call that touched block n, or -1. */
  function LastTouch(ops: seq<Op>, n: nat): (i: int)
    ensures -1 <= i < |ops|
    ensures i >= 0 ==> Touches(ops[i], n)
    decreases |ops|
  {
    if ops == [] then -1
    else if Touches(ops[|ops| - 1], n) then |ops| - 1
    else LastTouch(ops[..|ops| - 1], n)
  }

  /** The resident block whose last touch lies furthest back. */
  ghost predicate IsLeastRecentlyUsed(m: map<nat, Entry>, ops: seq<Op>, v: nat) {
    v in m && forall k :: k in m ==> LastTouch(ops, v) <= LastTouch(ops, k)
  }

  /** Time stamps never contradict the order of touches. */
  ghost predicate StampsFollowTouches(m: map<nat, Entry>, ops: seq<Op>) {
    && (forall k :: k in m ==> LastTouch(ops, k) >= 0)
    && (forall j, k :: j in m && k in m && LastTouch(ops, j) < LastTouch(ops, k) ==>
          m[j].lastaccessed <= m[k].lastaccessed)
  }

  lemma {:induction false} RunStampsFollowTouches(c: CacheState, ops: seq<Op>)
    requires CacheOk(c) && c.resident == map[]
    requires AllLegal(ops, c.disk.geom.blocksize)
    ensures StampsFollowTouches(After(c, ops).resident, ops)
    decreases |ops|
  {
    if ops != [] {
      var last, front := ops[|ops| - 1], ops[..|ops| - 1];
      assert ops == front + [last];
      RunStampsFollowTouches(c, front);
      AfterAppend(c, front, last);
      StepStamps(After(c, front), front, last);
    }
  }

  lemma StepStamps(c: CacheState, ops: seq<Op>, op: Op)
    requires CacheOk(c) && Legal(op, c.disk.geom.blocksize)
    requires StampsFollowTouches(c.resident, ops)
    ensures StampsFollowTouches(Step(c, op).cache.resident, ops + [op])
  {
    hide Step;
    var d := Step(c, op).cache;
    StepKeeps(c, op);
    assert (ops + [op])[..|ops|] == ops;
    forall k | k in d.resident
      ensures LastTouch(ops + [op], k) == if Touches(op, k) then |ops| else LastTouch(ops, k)
      ensures !Touches(op, k) ==>
                k in c.resident && d.resident[k].lastaccessed == c.resident[k].lastaccessed
      ensures d.resident[k].lastaccessed <= d.time
      ensures Touches(op, k) ==> d.resident[k].lastaccessed == d.time
    {
      assert EntryOk(d, k);
      if Touches(op, k) {
        TouchedIsServed(c, op, k);
      } else {
        StepKeepsStamp(c, op, k);
      }
    }
  }

  lemma TouchedIsServed(c: CacheState, op: Op, k: nat)
    requires CacheOk(c) && Legal(op, c.disk.geom.blocksize) && Touches(op, k)
    requires k in Step(c, op).cache.resident
    ensures Step(c, op).cache.resident[k].lastaccessed == Step(c, op).cache.time
  {
    hide AccessTime, HeadAfter, ValidGeometry, Evict;
    EvictKeeps(c);
  }

  lemma VictimIsLruIffNoTie(c: CacheState, ops: seq<Op>, v: nat)
    requires CacheOk(c) && c.resident == map[]
    requires AllLegal(ops, c.disk.geom.blocksize)
    requires IsLeastRecentlyUsed(After(c, ops).resident, ops, v)
    ensures var m := After(c, ops).resident;
            Victim(m) == v
            <==> forall k :: k in m && k < v ==> m[k].lastaccessed != m[v].lastaccessed
  {
    hide After;
    var m := After(c, ops).resident;
    RunStampsFollowTouches(c, ops);
    forall k | k in m
      ensures m[v].lastaccessed <= m[k].lastaccessed
    {
      if LastTouch(ops, v) == LastTouch(ops, k) {
        assert Touches(ops[LastTouch(ops, v)], v) && Touches(ops[LastTouch(ops, k)], k);
      }
    }
    if forall k :: k in m && k < v ==> m[k].lastaccessed != m[v].lastaccessed {
      assert IsVictim(m, v);
      VictimUnique(m, v, Victim(m));
    }
  }

  lemma {:induction false} AfterConcat(c: CacheState, a: seq<Op>, b: seq<Op>)
    requires CacheOk(c)
    requires AllLegal(a, c.disk.geom.blocksize) && AllLegal(b, c.disk.geom.blocksize)
    ensures AllLegal(a + b, c.disk.geom.blocksize)
    ensures After(c, a + b) == After(After(c, a), b)
    decreases |a|
  {
    hide Step;
    assert AllLegal(a + b, c.disk.geom.blocksize);
    if a == [] {
      assert a + b == b;
    } else {
      assert (a + b)[1..] == a[1..] + b;
      StepKeeps(c, a[0]);
      AfterConcat(Step(c, a[0]).cache, a[1..], b);
    }
  }

  lemma PrefixAccounted(c: CacheState, ops: seq<Op>, i: nat, j: nat)
    requires CacheOk(c) && AllLegal(ops, c.disk.geom.blocksize) && i <= j <= |ops|
    ensures Accounted(After(c, ops[..i]), After(c, ops[..j]))
  {
    hide Accounted, After;
    assert ops[..j] == ops[..i] + ops[i..j];
    AfterConcat(c, ops[..i], ops[i..j]);
    ClockIsSumOfRequests(After(c, ops[..i]), ops[i..j]);
  }

  /** The disk requests served by calls i .. j of a run. */
  ghost function RequestsBetween(c: CacheState, ops: seq<Op>, i: nat, j: nat): seq<Request>
    requires CacheOk(c) && AllLegal(ops, c.disk.geom.blocksize) && i <= j <= |ops|
  {
    PrefixAccounted(c, ops, i, j);
    AccountedExtends(After(c, ops[..i]), After(c, ops[..j]));
    Requests(After(c, ops[..i]), After(c, ops[..j]))
  }

  /** A resident block carries the time at which the run last touched it. */
  lemma {:induction false} StampIsTouchTime(c: CacheState, ops: seq<Op>, k: nat)
    requires CacheOk(c) && c.resident == map[] && AllLegal(ops, c.disk.geom.blocksize)
    requires k in After(c, ops).resident
    ensures LastTouch(ops, k) >= 0
    ensures After(c, ops).resident[k].lastaccessed == After(c, ops[..LastTouch(ops, k) + 1]).time
    decreases |ops|
  {
    hide Step, After;
    if ops == [] {
      AfterNothing(c);
    } else {
      var last, front := ops[|ops| - 1], ops[..|ops| - 1];
      assert ops == front + [last];
      AfterAppend(c, front, last);
      if Touches(last, k) {
        TouchedIsServed(After(c, front), last, k);
        assert ops[..|ops|] == ops;
      } else {
        StepKeepsStamp(After(c, front), last, k);
        StampIsTouchTime(c, front, k);
        assert ops[..LastTouch(ops, k) + 1] == front[..LastTouch(ops, k) + 1];
      }
    }
  }

  /** Two resident blocks carry the same time stamp exactly when no disk request was
      served between their last touches. */
  lemma TieMeansNoRequest(c: CacheState, ops: seq<Op>, v: nat, k: nat)
    requires CacheOk(c) && c.resident == map[]
    requires AllLegal(ops, c.disk.geom.blocksize)
    requires v in After(c, ops).resident && k in After(c, ops).resident
    requires LastTouch(ops, v) <= LastTouch(ops, k)
    ensures 0 <= LastTouch(ops, v)
    ensures After(c, ops).resident[k].lastaccessed == After(c, ops).resident[v].lastaccessed
            <==> RequestsBetween(c, ops, LastTouch(ops, v) + 1, LastTouch(ops, k) + 1) == []
  {
    hide *;
    StampIsTouchTime(c, ops, v);
    StampIsTouchTime(c, ops, k);
    NoRequestsBetweenIff(c, ops, LastTouch(ops, v) + 1, LastTouch(ops, k) + 1);
  }

  lemma LruIsFirst(m: map<nat, Entry>, ops: seq<Op>, v: nat, k: nat)
    requires IsLeastRecentlyUsed(m, ops, v)
    ensures v in m
    ensures k in m ==> LastTouch(ops, v) <= LastTouch(ops, k)
  {
  }

  lemma NoRequestsBetweenIff(c: CacheState, ops: seq<Op>, i: nat, j: nat)
    requires CacheOk(c) && AllLegal(ops, c.disk.geom.blocksize) && i <= j <= |ops|
    ensures RequestsBetween(c, ops, i, j) == []
            <==> After(c, ops[..i]).time == After(c, ops[..j]).time
  {
    hide After, Accounted, Requests, CacheOk, Extends;
    PrefixAccounted(c, ops, i, j);
    ClockMovesIff(After(c, ops[..i]), After(c, ops[..j]));
  }

  /** After every run from an attached cache, the block the code would give up is the
      least recently used one exactly when, between its last touch and the last touch
      of every resident block with a smaller number, the disk served a request. Hits
      and writes to resident blocks do not move the clock, so this can fail. */
  lemma VictimIsLruIff(c: CacheState, ops: seq<Op>, v: nat)
    requires CacheOk(c) && c.resident == map[]
    requires AllLegal(ops, c.disk.geom.blocksize)
    requires IsLeastRecentlyUsed(After(c, ops).resident, ops, v)
    ensures forall k :: k in After(c, ops).resident ==> 0 <= LastTouch(ops, v) <= LastTouch(ops, k)
    ensures Victim(After(c, ops).resident) == v
            <==> forall k :: k in After(c, ops).resident && k < v ==>
                   RequestsBetween(c, ops, LastTouch(ops, v) + 1, LastTouch(ops, k) + 1) != []
  {
    hide *;
    VictimIsLruIffNoTie(c, ops, v);
    LruIsFirst(After(c, ops).resident, ops, v, v);
    forall k | k in After(c, ops).resident
      ensures 0 <= LastTouch(ops, v) <= LastTouch(ops, k)
      ensures After(c, ops).resident[k].lastaccessed == After(c, ops).resident[v].lastaccessed
              <==> RequestsBetween(c, ops, LastTouch(ops, v) + 1, LastTouch(ops, k) + 1) == []
    {
      LruIsFirst(After(c, ops).resident, ops, v, k);
      TieMeansNoRequest(c, ops, v, k);
    }
  }

  /** Documented as LRU, but block 3 goes before block 5 although 5 was used first:
      on every empty cache of size 2, writing 5 and then 3 makes 3 the next victim. */
  lemma NotLeastRecentlyUsed(c: CacheState, b: Block)
    requires CacheOk(c) && c.resident == map[] && c.size == 2
    requires |b| == c.disk.geom.blocksize
    ensures var ops := [WriteOp(5, b), WriteOp(3, b)];
            && AllLegal(ops, c.disk.geom.blocksize)
            && IsLeastRecentlyUsed(After(c, ops).resident, ops, 5)
            && Victim(After(c, ops).resident) == 3
  {
    hide ValidGeometry;
    var first, second := WriteOp(5, b), WriteOp(3, b);
    var c1 := Step(c, first).cache;
    var c2 := Step(c1, second).cache;
    StepKeeps(c, first);
    assert c1.resident == map[5 := Entry(b, c.time, true)];
    assert !Full(c1);
    assert c2.resident == map[5 := Entry(b, c.time, true), 3 := Entry(b, c.time, true)];
    var ops := [first, second];
    AfterTwo(c, first, second);
    assert IsVictim(c2.resident, 3);
    VictimUnique(c2.resident, 3, Victim(c2.resident));
    assert ops[..1] == [first] && [first][..0] == [];
    assert LastTouch([first], 5) == 0;
    assert LastTouch(ops, 5) == 0 && LastTouch(ops, 3) == 1;
  }

  lemma AfterTwo(c: CacheState, a: Op, b: Op)
    requires CacheOk(c)
    requires Legal(a, c.disk.geom.blocksize) && Legal(b, c.disk.geom.blocksize)
    ensures CacheOk(Step(c, a).cache)
    ensures AllLegal([a, b], c.disk.geom.blocksize)
    ensures After(c, [a, b]) == Step(Step(c, a).cache, b).cache
  {
    hide Step;
    StepKeeps(c, a);
    AfterNothing(c);
    AfterAppend(c, [], a);
    AfterAppend(c, [a], b);
    assert [] + [a] == [a] && [a] + [b] == [a, b];
  }

  // ---- a block written past the end of the disk -------------------------------------------

  lemma {:induction false} ArrayNeverForgets(m: map<nat, Block>, n: nat, ops: seq<Op>, k: nat)
    requires k in m
    ensures k in ArrayAfter(m, n, ops)
    decreases |ops|
  {
    if ops != [] {
      ArrayNeverForgets(ArrayStep(m, n, ops[0]).0, n, ops[1..], k);
    }
  }

  /** WriteBlock checks no range. A block written past the end stays resident through
      every later run short of an Attach, whatever the cache evicts, and as long as it
      is there Detach fails. */
  lemma OutOfRangeBlockSticks(c: CacheState, ops: seq<Op>, k: nat)
    requires CacheOk(c) && AllLegal(ops, c.disk.geom.blocksize) && AttachOp !in ops
    requires k in c.resident && k >= c.disk.geom.numblocks
    ensures k in After(c, ops).resident
    ensures Detach(After(c, ops)).rc == NoSpace
  {
    hide Detach;
    var d := After(c, ops);
    CacheRefinesArray(c, ops);
    ViewIsPeek(c, k);
    ArrayNeverForgets(View(c), c.disk.geom.numblocks, ops, k);
    ViewIsPeek(d, k);
    DetachKeeps(d);
  }

  /** The call that breaks the resident bound: it brings a new block into a full cache
      whose oldest block lies past the end of the disk and so cannot be given up. */
  ghost predicate Overfills(c: CacheState, op: Op) {
    && (op.WriteOp? || (op.ReadOp? && op.n < |c.disk.blocks|))
    && op.n !in c.resident
    && |c.resident| == Max(c.size, 1)
    && c.resident != map[] && Victim(c.resident) >= |c.disk.blocks|
  }

  /** What eviction makes of a full cache: it shrinks by one exactly when the victim
      lies on the disk. */
  lemma EvictShrinksIff(c: CacheState)
    requires CacheOk(c) && Full(c)
    ensures |Evict(c).resident| ==
            |c.resident| - (if Victim(c.resident) < |c.disk.blocks| then 1 else 0)
  {
    hide AccessTime, HeadAfter, ValidGeometry;
    var v := Victim(c.resident);
    assert EntryOk(c, v);
    RemoveOne(c.resident, v);
  }

  lemma InsertExceedsIff(c: CacheState, op: Op)
    requires CacheOk(c) && |c.resident| <= Max(c.size, 1)
    requires op.WriteOp? || (op.ReadOp? && op.n < |c.disk.blocks|)
    ensures |Step(c, op).cache.resident| > Max(c.size, 1) <==> Overfills(c, op)
  {
    hide AccessTime, HeadAfter, ValidGeometry, Evict, FlushBlock, Detach, IsVictim;
    var d := Step(c, op).cache;
    EvictKeeps(c);
    if op.n in c.resident {
      InsertOne(c.resident, op.n, d.resident[op.n]);
    } else {
      InsertOne(Evict(c).resident, op.n, d.resident[op.n]);
      if Full(c) {
        EvictShrinksIff(c);
      } else {
        NotFull(c);
      }
    }
  }

  lemma NotFull(c: CacheState)
    requires CacheOk(c) && !Full(c)
    ensures Evict(c) == c
    ensures |c.resident| < Max(c.size, 1)
  {
  }

  lemma OthersDoNotGrow(c: CacheState, op: Op)
    requires CacheOk(c) && Legal(op, c.disk.geom.blocksize)
    requires !op.WriteOp? && !(op.ReadOp? && op.n < |c.disk.blocks|)
    ensures |Step(c, op).cache.resident| <= |c.resident|
  {
    hide AccessTime, HeadAfter, ValidGeometry, Evict, WriteBack, WriteBackAll, SameView;
    var d := Step(c, op).cache;
    EvictKeeps(c);
    if op.ReadOp? && op.n in c.resident {
      InsertOne(c.resident, op.n, d.resident[op.n]);
    } else {
      assert d.resident.Keys <= c.resident.Keys;
      SubsetSize(d.resident.Keys, c.resident.Keys);
    }
  }

  /** One call takes a cache within its bound past it exactly when it overfills it. */
  lemma StepExceedsIff(c: CacheState, op: Op)
    requires CacheOk(c) && Legal(op, c.disk.geom.blocksize) && |c.resident| <= Max(c.size, 1)
    ensures |Step(c, op).cache.resident| > Max(c.size, 1) <==> Overfills(c, op)
  {
    hide Step;
    if op.WriteOp? || (op.ReadOp? && op.n < |c.disk.blocks|) {
      InsertExceedsIff(c, op);
    } else {
      OthersDoNotGrow(c, op);
    }
  }

  /** No call of the run overfills the cache. */
  ghost predicate NeverOverfills(c: CacheState, ops: seq<Op>)
    requires CacheOk(c) && AllLegal(ops, c.disk.geom.blocksize)
    decreases |ops|
  {
    ops == [] ||
    (!Overfills(c, ops[0]) &&
     (StepKeeps(c, ops[0]);
      NeverOverfills(Step(c, ops[0]).cache, ops[1..])))
  }

  /** The resident count stays within the larger of the cache size and 1 at every
      point of the run. */
  ghost predicate AlwaysBounded(c: CacheState, ops: seq<Op>)
    requires CacheOk(c) && AllLegal(ops, c.disk.geom.blocksize)
  {
    forall i :: 0 <= i <= |ops| ==> |After(c, ops[..i]).resident| <= Max(c.size, 1)
  }

  lemma AlwaysBoundedUnfold(c: CacheState, ops: seq<Op>)
    requires CacheOk(c) && AllLegal(ops, c.disk.geom.blocksize) && ops != []
    ensures CacheOk(Step(c, ops[0]).cache) && Step(c, ops[0]).cache.disk.geom == c.disk.geom
    ensures AlwaysBounded(c, ops)
            <==> |c.resident| <= Max(c.size, 1) && AlwaysBounded(Step(c, ops[0]).cache, ops[1..])
  {
    hide Step;
    StepKeeps(c, ops[0]);
    var d, rest := Step(c, ops[0]).cache, ops[1..];
    forall i | 0 <= i <= |rest|
      ensures After(d, rest[..i]) == After(c, ops[..i + 1])
    {
      assert ops[..i + 1][0] == ops[0] && ops[..i + 1][1..] == rest[..i];
    }
    assert After(c, ops[..0]) == c;
    if |c.resident| <= Max(c.size, 1) && AlwaysBounded(d, rest) {
      forall i | 0 <= i <= |ops|
        ensures |After(c, ops[..i]).resident| <= Max(c.size, 1)
      {
        if i > 0 {
          assert After(d, rest[..i - 1]) == After(c, ops[..i - 1 + 1]);
        }
      }
    }
  }

  /** On every run, of any block numbers, from a cache within its bound: the bound holds
      throughout if and only if no call overfills the cache. */
  lemma {:induction false} ResidentIsBoundedIff(c: CacheState, ops: seq<Op>)
    requires CacheOk(c) && AllLegal(ops, c.disk.geom.blocksize)
    requires |c.resident| <= Max(c.size, 1)
    ensures AlwaysBounded(c, ops) <==> NeverOverfills(c, ops)
    decreases |ops|
  {
    hide Step, Overfills, AlwaysBounded;
    if ops == [] {
      BoundedAtStart(c);
    } else {
      var d := Step(c, ops[0]).cache;
      StepKeeps(c, ops[0]);
      StepExceedsIff(c, ops[0]);
      AlwaysBoundedUnfold(c, ops);
      if |d.resident| <= Max(c.size, 1) {
        ResidentIsBoundedIff(d, ops[1..]);
      } else {
        AlwaysBoundedStarts(d, ops[1..]);
      }
    }
  }

  lemma BoundedAtStart(c: CacheState)
    requires CacheOk(c) && |c.resident| <= Max(c.size, 1)
    ensures AlwaysBounded(c, [])
  {
    var none: seq<Op> := [];
    assert none[..0] == none;
  }

  lemma AlwaysBoundedStarts(c: CacheState, ops: seq<Op>)
    requires CacheOk(c) && AllLegal(ops, c.disk.geom.blocksize)
    ensures AlwaysBounded(c, ops) ==> |c.resident| <= Max(c.size, 1)
  {
    assert ops[..0] == [];
    assert After(c, ops[..0]) == c;
  }

  /** The smallest run that breaks the bound: on every empty cache of size 1, one block
      past the end and then block 0. */
  lemma ResidentBoundNeedsRange(c: CacheState, b: Block)
    requires CacheOk(c) && c.resident == map[] && c.size == 1
    requires |b| == c.disk.geom.blocksize && c.disk.geom.numblocks < BLOCK_LIMIT
    ensures var ops := [WriteOp(c.disk.geom.numblocks, b), WriteOp(0, b)];
            && AllLegal(ops, c.disk.geom.blocksize)
            && |After(c, ops).resident| > Max(c.size, 1)
  {
    hide Step, ValidGeometry;
    var n := c.disk.geom.numblocks;
    var first, second := WriteOp(n, b), WriteOp(0, b);
    var c1 := Step(c, first).cache;
    HasBlocks(c);
    StepKeeps(c, first);
    WriteIsServed(c, n, b);
    WriteIsServed(c1, 0, b);
    TouchStamps(c, first);
    TouchStamps(c1, second);
    OutOfRangeBlockSticks(c1, [second], n);
    AfterTwo(c, first, second);
    AfterNothing(c1);
    AfterAppend(c1, [], second);
    assert [] + [second] == [second];
    var d := Step(c1, second).cache;
    assert n in d.resident && 0 in d.resident;
    SubsetSize({n, 0}, d.resident.Keys);
  }

  lemma HasBlocks(c: CacheState)
    requires CacheOk(c)
    ensures 0 < c.disk.geom.numblocks == |c.disk.blocks|
  {
  }

  lemma WriteIsServed(c: CacheState, n: nat, b: Block)
    requires CacheOk(c)
    ensures Step(c, WriteOp(n, b)).rc == NoError
  {
  }

  // ---- a working set that fits --------------------------------------------------------

  ghost function Touched(ops: seq<Op>): set<nat> {
    set i | 0 <= i < |ops| && (ops[i].ReadOp? || ops[i].WriteOp?) :: ops[i].n
  }

  ghost function Written(ops: seq<Op>): set<nat> {
    set i | 0 <= i < |ops| && ops[i].WriteOp? :: ops[i].n
  }

  /** The blocks whose first touch is a read. */
  ghost function FirstRead(ops: seq<Op>): set<nat>
    decreases |ops|
  {
    if ops == [] then {}
    else
      var last, front := ops[|ops| - 1], ops[..|ops| - 1];
      FirstRead(front)
      + (if last.ReadOp? && last.n !in Touched(front) then {last.n} else {})
  }

  lemma FirstReadIsTouched(ops: seq<Op>)
    ensures FirstRead(ops) <= Touched(ops)
    decreases |ops|
  {
    if ops != [] {
      FirstReadIsTouched(ops[..|ops| - 1]);
      TouchedAppend(ops);
    }
  }

  lemma TouchedAppend(ops: seq<Op>)
    requires ops != []
    ensures var last, front := ops[|ops| - 1], ops[..|ops| - 1];
            && Touched(ops) == Touched(front)
                 + (if last.ReadOp? || last.WriteOp? then {last.n} else {})
            && Written(ops) == Written(front) + (if last.WriteOp? then {last.n} else {})
  {
    var front := ops[..|ops| - 1];
    assert forall i :: 0 <= i < |front| ==> front[i] == ops[i];
  }

  lemma SubsetSize(a: set<nat>, b: set<nat>)
    requires a <= b
    ensures |a| <= |b|
    ensures a < b ==> |a| < |b|
  {
    assert b == a + (b - a);
  }

  ghost predicate AllResident(c: CacheState, d: CacheState, ops: seq<Op>) {
    && d.resident.Keys == Touched(ops)
    && Dirty(d.resident) == Written(ops)
    && d.ndiskreads == c.ndiskreads + |FirstRead(ops)|
    && d.ndiskwrites == c.ndiskwrites
  }

  lemma StepWithRoom(c: CacheState, op: Op)
    requires CacheOk(c) && Legal(op, c.disk.geom.blocksize)
    requires op.ReadOp? || op.WriteOp?
    requires OpInRange(op, c.disk.geom.numblocks)
    requires op.n in c.resident || |c.resident| < c.size
    ensures var d := Step(c, op).cache;
            && d.resident.Keys == c.resident.Keys + {op.n}
            && Dirty(d.resident) == Dirty(c.resident) + (if op.WriteOp? then {op.n} else {})
            && d.ndiskwrites == c.ndiskwrites
            && d.ndiskreads == c.ndiskreads
                 + (if op.ReadOp? && op.n !in c.resident then 1 else 0)
  {
    hide AccessTime, HeadAfter, ValidGeometry, Evict, Dirty, FlushBlock, Detach;
    assert op.n in c.resident || Evict(c) == c by {
      RoomMeansNoEviction(c);
    }
    var d := Step(c, op).cache;
    assert d.resident == c.resident[op.n := d.resident[op.n]];
    if op.ReadOp? && op.n in c.resident {
      TouchKeepsDirty(c.resident, op.n, c.time);
    } else {
      NewEntryDirty(c.resident, op.n, d.resident[op.n]);
    }
  }

  lemma RoomMeansNoEviction(c: CacheState)
    requires CacheOk(c)
    ensures |c.resident| < c.size ==> Evict(c) == c
  {
  }

  lemma NewEntryDirty(m: map<nat, Entry>, n: nat, e: Entry)
    requires n !in m || e.dirty
    ensures Dirty(m[n := e]) == Dirty(m) + (if e.dirty then {n} else {})
  {
  }

  /** From an attached cache, a run of in-range reads and writes over at most
      cachesize distinct blocks never evicts: every block touched stays, exactly the
      first-read blocks are fetched and nothing is written to the disk. */
  lemma {:induction false} FittingRunNeverEvicts(c: CacheState, ops: seq<Op>)
    requires CacheOk(c) && c.resident == map[]
    requires AllLegal(ops, c.disk.geom.blocksize)
    requires AllOpsInRange(ops, c.disk.geom.numblocks)
    requires forall i :: 0 <= i < |ops| ==> ops[i].ReadOp? || ops[i].WriteOp?
    requires |Touched(ops)| <= c.size
    ensures AllResident(c, After(c, ops), ops)
    decreases |ops|
  {
    hide Step, After;
    if ops == [] {
      assert After(c, ops) == c by { AfterNothing(c); }
    } else {
      var last, front := ops[|ops| - 1], ops[..|ops| - 1];
      assert ops == front + [last];
      TouchedAppend(ops);
      SubsetSize(Touched(front), Touched(ops));
      FittingRunNeverEvicts(c, front);
      var d := After(c, front);
      AfterAppend(c, front, last);
      assert |d.resident| == |d.resident.Keys|;
      StepWithRoom(d, last);
      FirstReadIsTouched(front);
    }
  }

  lemma AfterNothing(c: CacheState)
    requires CacheOk(c)
    ensures After(c, []) == c
  {
  }

  /** ... and the Detach that follows writes each block ever written exactly once. */
  lemma FittingRunThenDetach(c: CacheState, ops: seq<Op>)
    requires CacheOk(c) && c.resident == map[]
    requires AllLegal(ops, c.disk.geom.blocksize)
    requires AllOpsInRange(ops, c.disk.geom.numblocks)
    requires forall i :: 0 <= i < |ops| ==> ops[i].ReadOp? || ops[i].WriteOp?
    requires |Touched(ops)| <= c.size
    ensures var d := After(c, ops);
            var r := Detach(d);
            && r.rc == NoError
            && r.cache.ndiskreads == c.ndiskreads + |FirstRead(ops)|
            && r.cache.ndiskwrites == c.ndiskwrites + |Written(ops)|
            && Extends(d, r.cache)
            && Requests(d, r.cache) == DirtyWrites(d.resident, Order(d.resident))
            && Dirty(d.resident) == Written(ops)
  {
    hide After, Detach;
    FittingRunNeverEvicts(c, ops);
    var d := After(c, ops);
    assert InRange(d);
    DetachKeeps(d);
    DetachWritesDirtyOnce(d);
  }
}
