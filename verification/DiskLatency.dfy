/** The latency model of the simulated disk (disksystem.cc, ModelAccess): what
    one request costs and where it leaves the head. double is modelled by real. */
module DiskLatency {
  import opened Base

  datatype Geometry = Geometry(
    numblocks: SizeT,
    blocksize: SizeT,
    numheads: SizeT,
    blockspertrack: SizeT,
    numtracks: SizeT,
    averageseek: real,
    trackseek: real,
    rotation: real)

  /** Track and sector the head was left at by the last request. */
  datatype Head = Head(track: SizeT, sector: SizeT)

  /** One request that reached the platters. */
  datatype Request = Request(write: bool, off: nat, num: nat)

  const HOME := Head(0, 0)

  /** SanityCheckConfig passes, with a product that does not overflow, on a disk
      that has at least one block. */
  ghost predicate ValidGeometry(g: Geometry) {
    && g.averageseek > 0.0 && g.trackseek > 0.0 && g.rotation > 0.0
    && 0 < g.numblocks == g.numheads * g.blockspertrack * g.numtracks
    && 0 < g.numheads && 0 < g.blockspertrack && 0 < g.numtracks
    && g.numheads * g.blockspertrack < WORD
  }

  /** Blocks under the heads at one arm position; the source calls this a track. */
  function Cylinder(g: Geometry): (c: SizeT)
    requires ValidGeometry(g)
    ensures 0 < c
  {
    Positive(g.numheads, g.blockspertrack);
    g.numheads * g.blockspertrack
  }

  function TrackOf(g: Geometry, x: SizeT): (t: SizeT)
    requires ValidGeometry(g)
    ensures t <= x
  {
    Euclid(x, Cylinder(g));
    x / Cylinder(g)
  }

  function SectorOf(g: Geometry, x: SizeT): (s: SizeT)
    requires ValidGeometry(g)
    ensures s < Cylinder(g)
  {
    Euclid(x, Cylinder(g));
    x % Cylinder(g)
  }

  function EndOf(off: nat, num: nat): SizeT {
    Wrap(off + num - 1)
  }

  function Distance(a: nat, b: nat): (d: nat)
    ensures a + d == b || b + d == a
  {
    if a >= b then a - b else b - a
  }

  /** Sectors that pass before the wanted one arrives, in unsigned arithmetic. */
  function SectorHop(g: Geometry, last: SizeT, wanted: SizeT): SizeT {
    if wanted >= last then wanted - last
    else Wrap(g.blockspertrack - (last - wanted))
  }

  function SeekTime(g: Geometry, hop: nat): real
    requires ValidGeometry(g)
  {
    var byTrack := hop as real * g.trackseek;
    var long := (hop as real / g.numtracks as real) / 0.5 * g.averageseek;
    if byTrack < long then byTrack else long
  }

  /** Time for num sectors to pass under a head. */
  function Turn(g: Geometry, num: nat): real
    requires ValidGeometry(g)
  {
    g.rotation * (num as real / g.blockspertrack as real)
  }

  /** Seek, rotational wait, track switches and transfer. */
  function Cost(g: Geometry, seek: nat, wait: nat, switches: nat, num: nat): real
    requires ValidGeometry(g)
  {
    SeekTime(g, seek) + Turn(g, wait) + switches as real * g.trackseek + Turn(g, num)
  }

  function HeadAfter(g: Geometry, off: nat, num: nat): Head
    requires ValidGeometry(g)
  {
    Head(TrackOf(g, EndOf(off, num)), SectorOf(g, EndOf(off, num)))
  }

  function AccessTime(g: Geometry, h: Head, off: SizeT, num: SizeT): real
    requires ValidGeometry(g)
  {
    Cost(g,
         Distance(TrackOf(g, off), h.track),
         SectorHop(g, h.sector, SectorOf(g, off)),
         Wrap(TrackOf(g, EndOf(off, num)) - TrackOf(g, off)),
         num)
  }

  ghost predicate InRangeRequest(g: Geometry, off: nat, num: nat) {
    0 < num && off + num <= g.numblocks
  }

  ghost predicate HeadInRange(g: Geometry, h: Head)
    requires ValidGeometry(g)
  {
    h.track < g.numtracks && h.sector < Cylinder(g)
  }

  // ---- tracks and sectors -------------------------------------------------------

  /** Two neighbouring blocks: the next sector of the same track, or the first
      sector of the next one. */
  lemma Neighbour(g: Geometry, x: SizeT)
    requires ValidGeometry(g) && x + 1 < WORD
    ensures TrackOf(g, x) == TrackOf(g, x + 1) ==>
              SectorOf(g, x + 1) == SectorOf(g, x) + 1
    ensures TrackOf(g, x) != TrackOf(g, x + 1) ==>
              TrackOf(g, x + 1) == TrackOf(g, x) + 1
              && SectorOf(g, x) == Cylinder(g) - 1 && SectorOf(g, x + 1) == 0
  {
    NextQuotient(x, Cylinder(g));
    Euclid(x, Cylinder(g));
  }

  lemma TracksOfRequest(g: Geometry, off: nat, num: nat)
    requires ValidGeometry(g) && InRangeRequest(g, off, num)
    ensures EndOf(off, num) == off + num - 1
    ensures TrackOf(g, off) <= TrackOf(g, off + num - 1) < g.numtracks
    ensures Wrap(TrackOf(g, off + num - 1) - TrackOf(g, off))
         == TrackOf(g, off + num - 1) - TrackOf(g, off)
  {
    var c := Cylinder(g);
    assert c * g.numtracks == g.numblocks;
    DivBelow(off + num - 1, c, g.numtracks);
    DivMonotone(off, off + num - 1, c);
  }

  // ---- real arithmetic ------------------------------------------------------------

  lemma Scale(k: real, x: real, y: real)
    requires 0.0 < k && x <= y
    ensures k * x <= k * y
    ensures x < y ==> k * x < k * y
    ensures k * 0.0 == 0.0
  {
  }

  lemma Ratio(a: nat, b: nat, n: nat)
    requires 0 < n && a <= b
    ensures 0.0 <= a as real / n as real <= b as real / n as real
    ensures a < b ==> a as real / n as real < b as real / n as real
    ensures n as real / n as real == 1.0
    ensures (a + b) as real / n as real == a as real / n as real + b as real / n as real
  {
  }

  lemma TurnAdds(g: Geometry, a: nat, b: nat)
    requires ValidGeometry(g)
    ensures Turn(g, a) + Turn(g, b) == Turn(g, a + b)
  {
    if a <= b {
      Ratio(a, b, g.blockspertrack);
    } else {
      Ratio(b, a, g.blockspertrack);
    }
  }

  lemma TurnMonotone(g: Geometry, a: nat, b: nat)
    requires ValidGeometry(g) && a <= b
    ensures 0.0 <= Turn(g, a) <= Turn(g, b)
    ensures a < b ==> Turn(g, a) < Turn(g, b)
    ensures Turn(g, g.blockspertrack) == g.rotation
  {
    var n := g.blockspertrack;
    Ratio(a, b, n);
    Scale(g.rotation, a as real / n as real, b as real / n as real);
    Scale(g.rotation, 0.0, a as real / n as real);
  }

  lemma SeekBounds(g: Geometry, hop: nat)
    requires ValidGeometry(g)
    ensures 0.0 <= SeekTime(g, hop)
    ensures hop < g.numtracks ==> SeekTime(g, hop) < 2.0 * g.averageseek
    ensures SeekTime(g, 0) == 0.0
  {
    hide ValidGeometry, SeekTime;
    SeekIsMin(g, hop);
    SeekIsMin(g, 0);
    ShortSeek(hop, g.trackseek);
    LongSeek(hop, g.numtracks, g.averageseek);
  }

  lemma SeekIsMin(g: Geometry, hop: nat)
    requires ValidGeometry(g)
    ensures 0.0 < g.trackseek && 0.0 < g.averageseek && 0 < g.numtracks
    ensures SeekTime(g, hop) <= hop as real * g.trackseek
    ensures SeekTime(g, hop) <= (hop as real / g.numtracks as real) / 0.5 * g.averageseek
    ensures SeekTime(g, hop) == hop as real * g.trackseek
         || SeekTime(g, hop) == (hop as real / g.numtracks as real) / 0.5 * g.averageseek
  {
  }

  lemma ShortSeek(hop: nat, t: real)
    requires 0.0 < t
    ensures 0.0 <= hop as real * t
    ensures 0 as real * t == 0.0
  {
  }

  lemma LongSeek(hop: nat, n: nat, a: real)
    requires 0 < n && 0.0 < a
    ensures 0.0 <= (hop as real / n as real) / 0.5 * a
    ensures hop < n ==> (hop as real / n as real) / 0.5 * a < 2.0 * a
    ensures (0 as real / n as real) / 0.5 * a == 0.0
  {
    var f := hop as real / n as real;
    Ratio(0, hop, n);
    Ratio(0, 0, n);
    Halves(f);
    Halves(0.0);
    Scale(a, 0.0, 2.0 * f);
    if hop < n {
      Ratio(hop, n, n);
      Scale(a, 2.0 * f, 2.0);
    }
  }

  lemma Halves(f: real)
    ensures f / 0.5 == 2.0 * f
  {
  }

  lemma CostIsPositive(g: Geometry, seek: nat, wait: nat, switches: nat, num: nat)
    requires ValidGeometry(g) && 0 < num
    ensures 0.0 < Cost(g, seek, wait, switches, num)
  {
    SeekBounds(g, seek);
    TurnMonotone(g, 0, wait);
    TurnMonotone(g, 0, num);
    Scale(g.trackseek, 0.0, switches as real);
  }

  lemma CostIsBelow(g: Geometry, seek: nat, wait: nat, switches: nat, num: nat)
    requires ValidGeometry(g)
    requires seek < g.numtracks && wait < g.blockspertrack && switches < g.numtracks
    requires 0.0 < g.trackseek
    ensures Cost(g, seek, wait, switches, num)
          < 2.0 * g.averageseek + g.rotation
            + (g.numtracks - 1) as real * g.trackseek + Turn(g, num)
  {
    hide SeekTime, Turn, ValidGeometry;
    SeekBounds(g, seek);
    TurnMonotone(g, wait, g.blockspertrack);
    Scale(g.trackseek, switches as real, (g.numtracks - 1) as real);
  }

  lemma CostSplits(g: Geometry, seek: nat, wait: nat, a: nat, b: nat, k: nat, rest: nat)
    requires ValidGeometry(g)
    ensures Cost(g, seek, wait, a, k) + Cost(g, 0, 1, b, rest)
         == Cost(g, seek, wait, a + b, k + rest) + Turn(g, 1)
  {
    SeekBounds(g, 0);
    TurnAdds(g, k, rest);
    Distribute(a, b, g.trackseek);
  }

  lemma CostSplitsAtEdge(g: Geometry, seek: nat, wait: nat, a: nat, edge: nat, b: nat, k: nat, rest: nat)
    requires ValidGeometry(g)
    ensures Cost(g, seek, wait, a, k) + Cost(g, 1, edge, b, rest)
         == Cost(g, seek, wait, a + 1 + b, k + rest) + Turn(g, edge) + SeekTime(g, 1) - g.trackseek
    ensures SeekTime(g, 1) <= g.trackseek
  {
    TurnAdds(g, k, rest);
    Distribute(a, b, g.trackseek);
    Distribute(a + b, 1, g.trackseek);
  }

  lemma Distribute(a: nat, b: nat, t: real)
    ensures (a + b) as real * t == a as real * t + b as real * t
  {
  }

  // ---- what each part of the time is ------------------------------------------

  /** Blocks are numbered sector by sector within a track, track by track. */
  lemma BlockPosition(g: Geometry, x: SizeT, t: nat, s: nat)
    requires ValidGeometry(g)
    ensures TrackOf(g, x) == t && SectorOf(g, x) == s
            <==> x == t * (g.numheads * g.blockspertrack) + s && s < g.numheads * g.blockspertrack
  {
    var c := Cylinder(g);
    Euclid(x, c);
    if x == t * c + s && s < c {
      QuotientUnique(c, t, s, x / c, x % c);
    }
  }

  lemma LastBlock(g: Geometry, off: nat, num: nat)
    requires ValidGeometry(g) && InRangeRequest(g, off, num)
    ensures EndOf(off, num) == off + num - 1
  {
  }

  /** The head rests on the last block of the request. */
  lemma HeadIsLastBlock(g: Geometry, off: nat, num: nat)
    requires ValidGeometry(g) && InRangeRequest(g, off, num)
    ensures var h := HeadAfter(g, off, num);
            h.track * (g.numheads * g.blockspertrack) + h.sector == off + num - 1
  {
    hide TrackOf, SectorOf, ValidGeometry;
    var last := EndOf(off, num);
    LastBlock(g, off, num);
    BlockPosition(g, last, TrackOf(g, last), SectorOf(g, last));
  }

  /** Among requests within the disk, empty ones included, only the empty request at
      block 0 loses the head: the last block is computed as off + num - 1. */
  lemma HeadStaysIff(g: Geometry, off: nat, num: nat)
    requires ValidGeometry(g) && off + num <= g.numblocks
    ensures HeadInRange(g, HeadAfter(g, off, num)) <==> 0 < off + num
  {
    hide TrackOf, SectorOf;
    if 0 < off + num {
      TracksOfRequest(g, off + num - 1, 1);
    } else {
      var last: SizeT := WORD - 1;
      BlockPosition(g, last, TrackOf(g, last), SectorOf(g, last));
      if TrackOf(g, last) < g.numtracks {
        Gap(Cylinder(g), TrackOf(g, last), g.numtracks);
      }
    }
  }

  /** Which of the two seek formulas is the cheaper does not depend on the distance. */
  lemma SeekIsCheaper(g: Geometry, hop: nat)
    requires ValidGeometry(g)
    ensures g.trackseek * g.numtracks as real <= 2.0 * g.averageseek ==>
              SeekTime(g, hop) == hop as real * g.trackseek
    ensures g.trackseek * g.numtracks as real >= 2.0 * g.averageseek ==>
              SeekTime(g, hop) * g.numtracks as real == 2.0 * g.averageseek * hop as real
  {
    hide ValidGeometry, SeekTime;
    SeekIsMin(g, hop);
    TwoSeeks(hop as real, g.numtracks as real, g.trackseek, g.averageseek);
  }

  lemma TwoSeeks(d: real, n: real, t: real, a: real)
    requires 0.0 <= d && 0.0 < n
    ensures d / n / 0.5 * a * n == 2.0 * a * d
    ensures t * n <= 2.0 * a ==> d * t <= d / n / 0.5 * a
    ensures t * n >= 2.0 * a ==> d * t >= d / n / 0.5 * a
  {
    var f := d / n;
    assert f * n == d;
    Halves(f);
    assert 2.0 * f * a * n == 2.0 * a * (f * n);
    Product(f, t * n, 2.0 * a);
    Product(f, 2.0 * a, t * n);
    assert f * (t * n) == d * t && f * (2.0 * a) == 2.0 * f * a;
  }

  lemma Product(f: real, x: real, y: real)
    requires 0.0 <= f
    ensures x <= y ==> f * x <= f * y
  {
  }

  /** A track's worth of sectors is one rotation, and time is proportional. */
  lemma TurnIsShare(g: Geometry, num: nat)
    requires ValidGeometry(g)
    ensures Turn(g, num) * g.blockspertrack as real == g.rotation * num as real
  {
    Share(g.rotation, num as real, g.blockspertrack as real);
  }

  lemma Share(r: real, k: real, n: real)
    requires 0.0 < n
    ensures r * (k / n) * n == r * k
  {
    assert k / n * n == k;
    assert r * (k / n) * n == r * (k / n * n);
  }

  /** The wait in sectors, for every pair of sectors: forward the plain difference,
      backward a track less the difference, and 2^32 more when that is negative. */
  lemma SectorHopIs(g: Geometry, last: SizeT, wanted: SizeT)
    ensures last <= wanted ==> last + SectorHop(g, last, wanted) == wanted
    ensures wanted < last <= wanted + g.blockspertrack ==>
              last + SectorHop(g, last, wanted) == wanted + g.blockspertrack
    ensures wanted + g.blockspertrack < last ==>
              last + SectorHop(g, last, wanted) == wanted + g.blockspertrack + WORD
  {
    if wanted + g.blockspertrack < last {
      WrapBelow(g.blockspertrack - (last - wanted));
    }
  }

  lemma WrapBelow(x: int)
    requires 0 - WORD <= x < 0
    ensures Wrap(x) == x + WORD
  {
  }

  /** From the first sector of the request the time is the track switches and the
      transfer; from anywhere else the seek over the distance and the wait come on top,
      and nothing else depends on where the head was. */
  lemma AccessAddsUp(g: Geometry, h: Head, off: nat, num: nat)
    requires ValidGeometry(g) && InRangeRequest(g, off, num)
    ensures TrackOf(g, off) <= TrackOf(g, off + num - 1)
    ensures var t, s := TrackOf(g, off), SectorOf(g, off);
            && AccessTime(g, Head(t, s), off, num)
               == (TrackOf(g, off + num - 1) - t) as real * g.trackseek + Turn(g, num)
            && AccessTime(g, h, off, num) - AccessTime(g, Head(t, s), off, num)
               == SeekTime(g, Distance(t, h.track)) + Turn(g, SectorHop(g, h.sector, s))
  {
    hide TrackOf, SectorOf, SeekTime, Turn, AccessTime;
    var t, s := TrackOf(g, off), SectorOf(g, off);
    AccessIsCost(g, h, off, num);
    AccessIsCost(g, Head(t, s), off, num);
    SeekBounds(g, 0);
    TurnAdds(g, 0, 0);
  }

  // ---- what the model promises ----------------------------------------------

  /** The rotational wait is the modular sector distance exactly when the two
      sectors are at most a track apart going backwards and less than a track
      apart going forwards. With one head that is always so; with several, sector
      numbers run over a whole cylinder and the unsigned subtraction wraps. */
  lemma SectorHopIsModularIff(g: Geometry, last: SizeT, wanted: SizeT)
    requires 0 < g.blockspertrack
    ensures SectorHop(g, last, wanted) == (wanted - last) % g.blockspertrack
            <==> (0 - g.blockspertrack <= wanted - last < g.blockspertrack)
  {
    Residue(wanted - last, g.blockspertrack);
  }

  lemma Residue(d: int, n: nat)
    requires 0 < n
    ensures 0 <= d % n < n
    ensures 0 <= d < n ==> d % n == d
    ensures 0 - n <= d < 0 ==> d % n == d + n
  {
    if 0 - n <= d < 0 {
      assert (d + n) / n == 0;
      assert d == n * (-1) + (d + n);
    }
  }

  /** With four heads and four blocks per track a backward hop of five sectors
      waits for almost the whole 32-bit range. */
  lemma SectorHopWraps(g: Geometry)
    requires g == Geometry(16, 64, 4, 4, 1, 1.0, 1.0, 1.0)
    ensures ValidGeometry(g)
    ensures SectorHop(g, 5, 0) == 0xFFFF_FFFF
    ensures SectorHop(g, 5, 0) != (0 - 5) % g.blockspertrack
  {
    Residue(0 - 5 + 4, 4);
  }

  lemma AccessIsCost(g: Geometry, h: Head, off: nat, num: nat)
    requires ValidGeometry(g) && InRangeRequest(g, off, num)
    ensures TrackOf(g, off) <= TrackOf(g, off + num - 1)
    ensures AccessTime(g, h, off, num)
         == Cost(g, Distance(TrackOf(g, off), h.track), SectorHop(g, h.sector, SectorOf(g, off)),
                 TrackOf(g, off + num - 1) - TrackOf(g, off), num)
    ensures HeadAfter(g, off, num) == Head(TrackOf(g, off + num - 1), SectorOf(g, off + num - 1))
  {
    hide TrackOf, SectorOf, Cost;
    TracksOfRequest(g, off, num);
  }

  /** Every non-empty in-range request leaves the head on the disk and takes
      positive time, whatever the head state was. */
  lemma AccessIsPositive(g: Geometry, h: Head, off: nat, num: nat)
    requires ValidGeometry(g) && InRangeRequest(g, off, num)
    ensures HeadInRange(g, HeadAfter(g, off, num))
    ensures 0.0 < AccessTime(g, h, off, num)
  {
    TracksOfRequest(g, off, num);
    CostIsPositive(g, Distance(TrackOf(g, off), h.track), SectorHop(g, h.sector, SectorOf(g, off)),
                   TrackOf(g, off + num - 1) - TrackOf(g, off), num);
  }

  /** With one head the wait is the modular sector distance and the time of a
      request is bounded by a seek, one rotation, the track switches and the
      transfer. */
  lemma AccessIsBounded(g: Geometry, h: Head, off: nat, num: nat)
    requires ValidGeometry(g) && g.numheads == 1
    requires HeadInRange(g, h) && InRangeRequest(g, off, num)
    ensures SectorHop(g, h.sector, SectorOf(g, off))
         == (SectorOf(g, off) - h.sector) % g.blockspertrack
    ensures AccessTime(g, h, off, num)
          < 2.0 * g.averageseek + g.rotation
            + (g.numtracks - 1) as real * g.trackseek
            + Turn(g, num)
  {
    hide TrackOf, SectorOf, Turn, Cost, AccessTime, SectorHop;
    OneHeadCylinder(g);
    TracksOfRequest(g, off, num);
    AccessIsCost(g, h, off, num);
    WaitWithOneHead(g, h.sector, SectorOf(g, off));
    CostIsBelow(g, Distance(TrackOf(g, off), h.track), SectorHop(g, h.sector, SectorOf(g, off)),
                TrackOf(g, off + num - 1) - TrackOf(g, off), num);
  }

  lemma OneHeadCylinder(g: Geometry)
    requires ValidGeometry(g) && g.numheads == 1
    ensures Cylinder(g) == g.blockspertrack
  {
  }

  lemma WaitWithOneHead(g: Geometry, last: SizeT, wanted: SizeT)
    requires last < g.blockspertrack && wanted < g.blockspertrack
    ensures SectorHop(g, last, wanted) == (wanted - last) % g.blockspertrack < g.blockspertrack
  {
    SectorHopIsModularIff(g, last, wanted);
    Residue(wanted - last, g.blockspertrack);
  }

  // ---- sequences of requests --------------------------------------------------

  ghost predicate AllInRange(g: Geometry, reqs: seq<Request>) {
    forall i :: 0 <= i < |reqs| ==> InRangeRequest(g, reqs[i].off, reqs[i].num)
  }

  function HeadAfterAll(g: Geometry, h: Head, reqs: seq<Request>): Head
    requires ValidGeometry(g)
  {
    if reqs == [] then h
    else HeadAfter(g, reqs[|reqs| - 1].off, reqs[|reqs| - 1].num)
  }

  /** Total time of a sequence of requests served one after the other. */
  function TotalTime(g: Geometry, h: Head, reqs: seq<Request>): real
    requires ValidGeometry(g) && AllInRange(g, reqs)
  {
    if reqs == [] then 0.0
    else
      var r, before := reqs[|reqs| - 1], reqs[..|reqs| - 1];
      TotalTime(g, h, before) + AccessTime(g, HeadAfterAll(g, h, before), r.off, r.num)
  }

  lemma {:induction false} TotalTimeAppend(g: Geometry, h: Head, a: seq<Request>, b: seq<Request>)
    requires ValidGeometry(g) && AllInRange(g, a) && AllInRange(g, b)
    ensures HeadAfterAll(g, h, a + b) == HeadAfterAll(g, HeadAfterAll(g, h, a), b)
    ensures TotalTime(g, h, a + b)
         == TotalTime(g, h, a) + TotalTime(g, HeadAfterAll(g, h, a), b)
    decreases |b|
  {
    if b == [] {
      assert a + b == a;
    } else {
      var front := b[..|b| - 1];
      assert (a + b)[..|a + b| - 1] == a + front;
      TotalTimeAppend(g, h, a, front);
    }
  }

  /** Serving any request at all takes time. */
  lemma {:induction false} ServingTakesTime(g: Geometry, h: Head, reqs: seq<Request>)
    requires ValidGeometry(g) && AllInRange(g, reqs)
    ensures 0.0 <= TotalTime(g, h, reqs)
    ensures reqs != [] ==> 0.0 < TotalTime(g, h, reqs)
    decreases |reqs|
  {
    hide AccessTime, HeadAfter;
    if reqs != [] {
      var r, before := reqs[|reqs| - 1], reqs[..|reqs| - 1];
      ServingTakesTime(g, h, before);
      AccessIsPositive(g, HeadAfterAll(g, h, before), r.off, r.num);
    }
  }

  /** The requests are non-empty and cover blocks off .. off + num in order. */
  ghost predicate Pieces(reqs: seq<Request>, off: nat, num: nat)
    decreases |reqs|
  {
    if |reqs| <= 1 then
      |reqs| == 1 && reqs[0].off == off && reqs[0].num == num > 0
    else (
      var r := reqs[|reqs| - 1];
      && 0 < r.num < num && r.off == off + num - r.num
      && Pieces(reqs[..|reqs| - 1], off, num - r.num)
    )
  }

  /** Splitting a request at a point inside a track leaves the same head state
      and costs exactly one sector time more. */
  lemma SplitInsideTrack(g: Geometry, h: Head, off: nat, k: nat, num: nat)
    requires ValidGeometry(g) && InRangeRequest(g, off, num) && 0 < k < num
    requires TrackOf(g, off + k - 1) == TrackOf(g, off + k)
    ensures HeadAfter(g, off + k, num - k) == HeadAfter(g, off, num)
    ensures AccessTime(g, h, off, k) + AccessTime(g, HeadAfter(g, off, k), off + k, num - k)
         == AccessTime(g, h, off, num) + Turn(g, 1)
  {
    hide TrackOf, SectorOf, SeekTime, Turn, Cost, AccessTime, HeadAfter;
    var s, m, e := TrackOf(g, off), TrackOf(g, off + k), TrackOf(g, off + num - 1);
    AccessIsCost(g, h, off, num);
    AccessIsCost(g, h, off, k);
    AccessIsCost(g, HeadAfter(g, off, k), off + k, num - k);
    Neighbour(g, off + k - 1);
    CostSplits(g, Distance(s, h.track), SectorHop(g, h.sector, SectorOf(g, off)),
               m - s, e - m, k, num - k);
  }

  /** The wait for the first sector of the next track on a one-head disk: one
      sector, or none when a track is a single sector. */
  function EdgeWait(g: Geometry): nat {
    if g.blockspertrack == 1 then 0 else 1
  }

  /** Splitting at a track boundary on a one-head disk: the track switch is paid
      as a seek (the cheaper of the two seek formulas) instead of at the track
      rate, plus the wait for the next sector. */
  lemma SplitAtTrackEdge(g: Geometry, h: Head, off: nat, k: nat, num: nat)
    requires ValidGeometry(g) && g.numheads == 1
    requires InRangeRequest(g, off, num) && 0 < k < num
    requires TrackOf(g, off + k - 1) != TrackOf(g, off + k)
    ensures HeadAfter(g, off + k, num - k) == HeadAfter(g, off, num)
    ensures SeekTime(g, 1) <= g.trackseek
    ensures AccessTime(g, h, off, k) + AccessTime(g, HeadAfter(g, off, k), off + k, num - k)
         == AccessTime(g, h, off, num) + Turn(g, EdgeWait(g)) + SeekTime(g, 1) - g.trackseek
  {
    hide TrackOf, SectorOf, SeekTime, Turn, Cost, AccessTime, HeadAfter;
    var s, m, e := TrackOf(g, off), TrackOf(g, off + k), TrackOf(g, off + num - 1);
    AccessIsCost(g, h, off, num);
    AccessIsCost(g, h, off, k);
    AccessIsCost(g, HeadAfter(g, off, k), off + k, num - k);
    Neighbour(g, off + k - 1);
    OneHeadCylinder(g);
    assert SectorHop(g, g.blockspertrack - 1, 0) == EdgeWait(g);
    CostSplitsAtEdge(g, Distance(s, h.track), SectorHop(g, h.sector, SectorOf(g, off)),
                     m - 1 - s, EdgeWait(g), e - m, k, num - k);
  }

  /** However a request for blocks of one track is cut into consecutive pieces,
      the head ends in the same place and each cut costs one sector time. In
      particular reading k blocks singly costs (k - 1) sector times more. */
  lemma {:induction false} CutsCostOneSectorEach(g: Geometry, h: Head, reqs: seq<Request>, off: nat, num: nat)
    requires ValidGeometry(g) && InRangeRequest(g, off, num) && AllInRange(g, reqs)
    requires Pieces(reqs, off, num)
    requires TrackOf(g, off) == TrackOf(g, off + num - 1)
    ensures HeadAfterAll(g, h, reqs) == HeadAfter(g, off, num)
    ensures TotalTime(g, h, reqs)
         == AccessTime(g, h, off, num) + (|reqs| - 1) as real * Turn(g, 1)
    decreases |reqs|
  {
    hide TrackOf, SectorOf, AccessTime, Turn;
    var r, before := reqs[|reqs| - 1], reqs[..|reqs| - 1];
    if |reqs| == 1 {
      assert before == [];
    } else {
      var k := num - r.num;
      SameTrackInside(g, off, k, num);
      CutsCostOneSectorEach(g, h, before, off, k);
      SplitInsideTrack(g, h, off, k, num);
      Distribute(|reqs| - 2, 1, Turn(g, 1));
    }
  }

  lemma SameTrackInside(g: Geometry, off: nat, k: nat, num: nat)
    requires ValidGeometry(g) && InRangeRequest(g, off, num) && 0 < k < num
    requires TrackOf(g, off) == TrackOf(g, off + num - 1)
    ensures TrackOf(g, off) == TrackOf(g, off + k - 1) == TrackOf(g, off + k)
  {
    TracksOfRequest(g, off, k);
    TracksOfRequest(g, off + k, num - k);
    TracksOfRequest(g, off + k - 1, 2);
  }
}
