/** What one call of the buffer cache does, as a function from state to state
    (buffercache.cc). The methods of class BufferCache are proved to compute these
    functions; CacheRefinement.dfy and CacheRuns.dfy prove what they promise. */
module CacheModel {
  import opened Base
  import opened DiskLatency
  import opened Disk

  datatype Entry = Entry(data: Block, lastaccessed: real, dirty: bool)

  datatype CacheState = CacheState(
    disk: DiskState,
    size: nat,
    resident: map<nat, Entry>,
    time: real,
    nallocs: nat,
    ndeallocs: nat,
    nreads: nat,
    nwrites: nat,
    ndiskreads: nat,
    ndiskwrites: nat)

  datatype Outcome = Outcome(cache: CacheState, rc: ErrorT, out: Block)

  ghost predicate EntryOk(c: CacheState, n: nat)
    requires n in c.resident
  {
    var e := c.resident[n];
    && n < BLOCK_LIMIT
    && |e.data| == c.disk.geom.blocksize
    && e.lastaccessed <= c.time
    && (!e.dirty ==> n < |c.disk.blocks| && c.disk.blocks[n] == e.data)
  }

  /** The cache invariant: a clean resident block equals its disk block, and no
      time stamp lies in the future. */
  ghost predicate CacheOk(c: CacheState) {
    && DiskOk(c.disk)
    && forall n :: n in c.resident ==> EntryOk(c, n)
  }

  /** No resident block lies beyond the end of the disk. */
  ghost predicate InRange(c: CacheState) {
    forall n :: n in c.resident ==> n < |c.disk.blocks|
  }

  // ---- the view ---------------------------------------------------------------

  /** What the cache would answer for block n: a resident block shadows the disk. */
  ghost function Peek(c: CacheState, n: nat): Option<Block> {
    if n in c.resident then Some(c.resident[n].data)
    else if n < |c.disk.blocks| then Some(c.disk.blocks[n])
    else None
  }

  ghost function DiskView(blocks: seq<Block>): map<nat, Block> {
    map n: nat | n < |blocks| :: blocks[n]
  }

  /** The abstraction function: the array of blocks the cache stands for, together
      with any block written past the end of the disk. */
  ghost function View(c: CacheState): map<nat, Block> {
    DiskView(c.disk.blocks) + map n | n in c.resident :: c.resident[n].data
  }

  lemma ViewIsPeek(c: CacheState, n: nat)
    ensures Peek(c, n) == if n in View(c) then Some(View(c)[n]) else None
  {
  }

  // ---- eviction -----------------------------------------------------------------

  /** The block with the least time stamp, the smallest number among equals. */
  ghost predicate IsVictim(m: map<nat, Entry>, v: nat) {
    && v in m
    && forall k :: k in m ==>
         m[v].lastaccessed < m[k].lastaccessed
         || (m[v].lastaccessed == m[k].lastaccessed && v <= k)
  }

  lemma {:induction false} VictimExists(m: map<nat, Entry>)
    requires m != map[]
    ensures exists v :: IsVictim(m, v)
    decreases |m|
  {
    var y :| y in m;
    var rest := m - {y};
    assert forall k :: k in m ==> k == y || (k in rest && rest[k] == m[k]);
    if rest == map[] {
      assert forall k :: k in m ==> k == y;
      assert IsVictim(m, y);
    } else {
      assert |rest| < |m| by {
        assert rest.Keys == m.Keys - {y};
      }
      VictimExists(rest);
      var v :| IsVictim(rest, v);
      if m[y].lastaccessed < m[v].lastaccessed
         || (m[y].lastaccessed == m[v].lastaccessed && y <= v) {
        assert IsVictim(m, y);
      } else {
        assert IsVictim(m, v);
      }
    }
  }

  lemma VictimUnique(m: map<nat, Entry>, v: nat, w: nat)
    requires IsVictim(m, v) && IsVictim(m, w)
    ensures v == w
  {
  }

  ghost function Victim(m: map<nat, Entry>): (v: nat)
    requires m != map[]
    ensures IsVictim(m, v)
  {
    VictimExists(m);
    var v :| IsVictim(m, v);
    v
  }

  /** Write resident block n to the disk; a block past the end is refused, takes
      no time, and is still counted. */
  ghost function WriteBack(c: CacheState, n: nat): (r: Outcome)
    requires DiskOk(c.disk) && n in c.resident
    requires |c.resident[n].data| == c.disk.geom.blocksize
    ensures DiskOk(r.cache.disk) && r.cache.disk.geom == c.disk.geom
    ensures r.cache.resident == c.resident && r.cache.size == c.size
  {
    if n < c.disk.geom.numblocks then
      Outcome(c.(disk := Served(c.disk, true, n, 1)
                         .(blocks := c.disk.blocks[n := c.resident[n].data]),
                 time := c.time + AccessTime(c.disk.geom, c.disk.head, n, 1),
                 ndiskwrites := c.ndiskwrites + 1),
              NoError, [])
    else
      Outcome(c.(ndiskwrites := c.ndiskwrites + 1), NoSpace, [])
  }

  ghost function Without(c: CacheState, n: nat): CacheState {
    c.(resident := c.resident - {n})
  }

  ghost predicate Full(c: CacheState) {
    |c.resident| >= c.size && c.resident != map[]
  }

  /** Make room: a full cache gives up its victim, after writing it back when it
      is dirty; a victim the disk refuses stays. */
  ghost function Evict(c: CacheState): (r: CacheState)
    requires CacheOk(c)
    ensures DiskOk(r.disk) && r.disk.geom == c.disk.geom && r.size == c.size
  {
    if !Full(c) then c
    else
      var v := Victim(c.resident);
      if !c.resident[v].dirty then Without(c, v)
      else
        var w := WriteBack(c, v);
        if w.rc == NoError then Without(w.cache, v) else w.cache
  }

  // ---- the public calls -----------------------------------------------------------

  ghost function ReadBlock(c: CacheState, n: nat): Outcome
    requires CacheOk(c)
  {
    if n in c.resident then
      var e := c.resident[n];
      Outcome(c.(resident := c.resident[n := e.(lastaccessed := c.time)], nreads := c.nreads + 1),
              NoError, e.data)
    else
      var c1 := Evict(c);
      if n < c.disk.geom.numblocks then
        var t := c1.time + AccessTime(c1.disk.geom, c1.disk.head, n, 1);
        var b := c1.disk.blocks[n];
        Outcome(c1.(disk := Served(c1.disk, false, n, 1),
                    resident := c1.resident[n := Entry(b, t, false)],
                    time := t,
                    nreads := c1.nreads + 1,
                    ndiskreads := c1.ndiskreads + 1),
                NoError, b)
      else
        Outcome(c1.(ndiskreads := c1.ndiskreads + 1), NoSpace, [])
  }

  ghost function WriteBlock(c: CacheState, n: nat, b: Block): Outcome
    requires CacheOk(c)
  {
    var c1 := if n in c.resident then c else Evict(c);
    Outcome(c1.(resident := c1.resident[n := Entry(b, c1.time, true)], nwrites := c1.nwrites + 1),
            NoError, [])
  }

  ghost function FlushBlock(c: CacheState, n: nat): Outcome
    requires CacheOk(c)
  {
    if n !in c.resident then Outcome(c, NoError, [])
    else if !c.resident[n].dirty then Outcome(Without(c, n), NoError, [])
    else
      var w := WriteBack(c, n);
      if w.rc == NoError then Outcome(Without(w.cache, n), NoError, []) else w
  }

  /** The order in which the source iterates its block map. */
  ghost function Order(m: map<nat, Entry>): (keys: seq<nat>)
    ensures forall i :: 0 <= i < |keys| ==> keys[i] in m
  {
    SortedKeysCorrect(m.Keys);
    SortedKeys(m.Keys)
  }

  ghost predicate Writable(c: CacheState, keys: seq<nat>) {
    forall i :: 0 <= i < |keys| ==>
      keys[i] in c.resident && |c.resident[keys[i]].data| == c.disk.geom.blocksize
  }

  /** Write back the dirty blocks among keys in order, stopping at a refusal. */
  ghost function WriteBackAll(c: CacheState, keys: seq<nat>): (r: Outcome)
    requires DiskOk(c.disk) && Writable(c, keys)
    ensures DiskOk(r.cache.disk) && r.cache.disk.geom == c.disk.geom
    ensures r.cache.resident == c.resident && r.cache.size == c.size
    decreases |keys|
  {
    if keys == [] then Outcome(c, NoError, [])
    else if !c.resident[keys[0]].dirty then WriteBackAll(c, keys[1..])
    else
      var w := WriteBack(c, keys[0]);
      if w.rc == NoError then WriteBackAll(w.cache, keys[1..]) else w
  }

  ghost function Detach(c: CacheState): Outcome
    requires CacheOk(c)
  {
    var w := WriteBackAll(c, Order(c.resident));
    if w.rc == NoError then Outcome(w.cache.(resident := map[]), NoError, []) else w
  }

  ghost function Attach(c: CacheState): Outcome {
    Outcome(c.(resident := map[]), NoError, [])
  }

  /** The allocation bit of block n is set, unless n is past the end; the call is
      counted either way. */
  ghost function Marked(c: CacheState, n: nat): CacheState {
    c.(disk := c.disk.(marked := c.disk.marked + (if n < c.disk.geom.numblocks then {n} else {})),
       nallocs := c.nallocs + 1)
  }

  ghost function Unmarked(c: CacheState, n: nat): CacheState {
    c.(disk := c.disk.(marked := c.disk.marked - (if n < c.disk.geom.numblocks then {n} else {})),
       ndeallocs := c.ndeallocs + 1)
  }

  /** A cache just constructed over a disk. */
  ghost function NewCache(d: DiskState, size: nat): CacheState {
    CacheState(d, size, map[], 0.0, 0, 0, 0, 0, 0, 0)
  }
}
