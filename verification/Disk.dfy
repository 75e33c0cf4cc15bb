/** The simulated disk: block transfers, the latency model's head state and the
    allocation bitmap (disksystem.cc). The data file is a sequence of blocks. */
module Disk {
  import opened Base
  import opened DiskLatency
  import Bitmap

  /** The abstract value of a disk. The log is a history variable: every request
      the disk has served, oldest first. */
  datatype DiskState = DiskState(
    geom: Geometry,
    blocks: seq<Block>,
    head: Head,
    marked: set<nat>,
    log: seq<Request>)

  ghost predicate DiskOk(d: DiskState) {
    && ValidGeometry(d.geom)
    && |d.blocks| == d.geom.numblocks
    && forall i :: 0 <= i < |d.blocks| ==> |d.blocks[i]| == d.geom.blocksize
  }

  /** The head moves and the request is logged. */
  ghost function Served(d: DiskState, write: bool, off: nat, num: nat): DiskState
    requires ValidGeometry(d.geom)
  {
    d.(head := HeadAfter(d.geom, off, num), log := d.log + [Request(write, off, num)])
  }

  ghost function Splice(s: seq<Block>, off: nat, bs: seq<Block>): seq<Block>
    requires off + |bs| <= |s|
  {
    s[..off] + bs + s[off + |bs|..]
  }

  /** Each block of the range holds its input and every other block is unchanged. */
  lemma SpliceIs(s: seq<Block>, off: nat, bs: seq<Block>, r: seq<Block>)
    requires off + |bs| <= |s|
    ensures r == Splice(s, off, bs)
            <==> |r| == |s| && forall j :: 0 <= j < |r| ==>
                   r[j] == if off <= j < off + |bs| then bs[j - off] else s[j]
  {
    if |r| == |s| && forall j :: 0 <= j < |r| ==>
         r[j] == if off <= j < off + |bs| then bs[j - off] else s[j] {
      assert forall j :: 0 <= j < |r| ==> r[j] == Splice(s, off, bs)[j];
    }
  }

  class DiskSystem {
    const geom: Geometry
    const bitmap: array<bv8>
    var data: seq<Block>
    var last_track: SizeT
    var last_sector: SizeT
    ghost var log: seq<Request>

    ghost predicate Valid()
      reads this
    {
      && bitmap.Length == Bitmap.ByteCount(geom.numblocks)
      && ValidGeometry(geom)
      && |data| == geom.numblocks
      && forall i :: 0 <= i < |data| ==> |data[i]| == geom.blocksize
    }

    ghost function State(): (d: DiskState)
      requires Valid()
      reads this, bitmap
      ensures DiskOk(d)
    {
      DiskState(geom, data, Head(last_track, last_sector),
                Bitmap.Members(bitmap[..], geom.numblocks), log)
    }

    /** A newly created disk over a data file: every bitmap bit is clear and the
        head is at the first sector. */
    constructor (g: Geometry, contents: seq<Block>)
      requires ValidGeometry(g) && |contents| == g.numblocks
      requires forall i :: 0 <= i < |contents| ==> |contents[i]| == g.blocksize
      ensures Valid() && fresh(bitmap)
      ensures State() == DiskState(g, contents, HOME, {}, [])
      ensures last_track == 0 && last_sector == 0
    {
      geom := g;
      data := contents;
      last_track, last_sector := 0, 0;
      bitmap := new bv8[Bitmap.ByteCount(g.numblocks)](_ => 0);
      log := [];
      new;
      Bitmap.ZeroIsEmpty(bitmap[..], g.numblocks);
    }

    method ModelAccess(offblock: SizeT, numblock: SizeT) returns (time: real)
      requires ValidGeometry(geom)
      modifies this`last_track, this`last_sector
      ensures time == AccessTime(geom, Head(old(last_track), old(last_sector)), offblock, numblock)
      ensures Head(last_track, last_sector) == HeadAfter(geom, offblock, numblock)
    {
      hide TrackOf, SectorOf, SeekTime, Turn, ValidGeometry;
      var trackstart := TrackOf(geom, offblock);
      var sectorstart := SectorOf(geom, offblock);
      var trackend := TrackOf(geom, EndOf(offblock, numblock));
      var sectorend := SectorOf(geom, EndOf(offblock, numblock));

      var trackhop := if trackstart >= last_track then trackstart - last_track
                      else last_track - trackstart;
      var timeinseek := SeekTime(geom, trackhop);

      var sectorhop := if sectorstart >= last_sector then sectorstart - last_sector
                       else Wrap(geom.blockspertrack - (last_sector - sectorstart));
      var timeinrotation := Turn(geom, sectorhop);

      var trackhops := Wrap(trackend - trackstart);
      var timeintrackhops := trackhops as real * geom.trackseek;
      var timeinreadsectors := Turn(geom, numblock);

      last_track := trackend;
      last_sector := sectorend;
      time := timeinseek + timeinrotation + timeintrackhops + timeinreadsectors;
    }

    method Read(inoffblock: SizeT, numblock: SizeT)
      returns (rc: ErrorT, blocks: seq<Block>, reqtime: real)
      requires Valid() && inoffblock + numblock < WORD
      modifies this
      ensures Valid()
      ensures inoffblock + numblock > geom.numblocks ==>
                rc == NoSpace && reqtime == 0.0 && State() == old(State())
      ensures inoffblock + numblock <= geom.numblocks ==>
                && rc == NoError
                && blocks == old(State()).blocks[inoffblock..inoffblock + numblock]
                && reqtime == AccessTime(geom, old(State()).head, inoffblock, numblock)
                && State() == Served(old(State()), false, inoffblock, numblock)
    {
      hide AccessTime, HeadAfter, ValidGeometry, Bitmap.Members;
      rc, blocks, reqtime := NoError, [], 0.0;
      if inoffblock + numblock > geom.numblocks {
        rc := NoSpace;
        return;
      }
      reqtime := ModelAccess(inoffblock, numblock);
      log := log + [Request(false, inoffblock, numblock)];
      for i := 0 to numblock
        invariant blocks == data[inoffblock..inoffblock + i]
      {
        blocks := blocks + [data[inoffblock + i]];
      }
    }

    method Write(inoffblock: SizeT, numblock: SizeT, blocks: seq<Block>)
      returns (rc: ErrorT, reqtime: real)
      requires Valid() && inoffblock + numblock < WORD
      requires |blocks| == numblock
      requires forall i :: 0 <= i < |blocks| ==> |blocks[i]| == geom.blocksize
      modifies this
      ensures Valid()
      ensures inoffblock + numblock > geom.numblocks ==>
                rc == NoSpace && reqtime == 0.0 && State() == old(State())
      ensures inoffblock + numblock <= geom.numblocks ==>
                && rc == NoError
                && reqtime == AccessTime(geom, old(State()).head, inoffblock, numblock)
                && State() == Served(old(State()), true, inoffblock, numblock)
                              .(blocks := Splice(old(State()).blocks, inoffblock, blocks))
      ensures inoffblock + numblock <= geom.numblocks ==>
                forall j :: 0 <= j < |data| ==>
                  data[j] == if inoffblock <= j < inoffblock + numblock
                             then blocks[j - inoffblock] else old(data)[j]
    {
      hide AccessTime, HeadAfter, ValidGeometry, Bitmap.Members, Splice;
      rc, reqtime := NoError, 0.0;
      if inoffblock + numblock > geom.numblocks {
        rc := NoSpace;
        return;
      }
      reqtime := ModelAccess(inoffblock, numblock);
      log := log + [Request(true, inoffblock, numblock)];
      ghost var before := data;
      for i := 0 to numblock
        modifies this`data
        invariant |data| == |before|
        invariant forall j :: 0 <= j < |data| ==>
          data[j] == if inoffblock <= j < inoffblock + i then blocks[j - inoffblock] else before[j]
      {
        data := data[inoffblock + i := blocks[i]];
      }
      SpliceIs(before, inoffblock, blocks, data);
      assert forall j :: 0 <= j < |data| ==> |data[j]| == geom.blocksize;
    }

    method ReadOne(inoffblock: SizeT) returns (rc: ErrorT, block: Block, reqtime: real)
      requires Valid() && inoffblock + 1 < WORD
      modifies this
      ensures Valid()
      ensures inoffblock >= geom.numblocks ==>
                rc == NoSpace && reqtime == 0.0 && State() == old(State())
      ensures inoffblock < geom.numblocks ==>
                && rc == NoError
                && block == old(State()).blocks[inoffblock]
                && reqtime == AccessTime(geom, old(State()).head, inoffblock, 1)
                && State() == Served(old(State()), false, inoffblock, 1)
    {
      hide AccessTime, HeadAfter, ValidGeometry, Bitmap.Members;
      var bl;
      block := [];
      rc, bl, reqtime := Read(inoffblock, 1);
      if rc != NoError {
        return;
      }
      block := bl[0];
    }

    method WriteOne(inoffblock: SizeT, block: Block) returns (rc: ErrorT, reqtime: real)
      requires Valid() && inoffblock + 1 < WORD
      requires |block| == geom.blocksize
      modifies this
      ensures Valid()
      ensures inoffblock >= geom.numblocks ==>
                rc == NoSpace && reqtime == 0.0 && State() == old(State())
      ensures inoffblock < geom.numblocks ==>
                && rc == NoError
                && reqtime == AccessTime(geom, old(State()).head, inoffblock, 1)
                && State() == Served(old(State()), true, inoffblock, 1)
                              .(blocks := old(State()).blocks[inoffblock := block])
    {
      hide AccessTime, HeadAfter, ValidGeometry, Bitmap.Members;
      rc, reqtime := Write(inoffblock, 1, [block]);
      assert inoffblock < geom.numblocks ==>
          Splice(old(data), inoffblock, [block]) == old(data)[inoffblock := block];
    }

    method IsBlockAllocated(block: SizeT) returns (marked: bool)
      requires Valid() && block < geom.numblocks
      ensures marked <==> block in State().marked
    {
      Bitmap.ByteInBounds(block, geom.numblocks);
      marked := (bitmap[block / 8] >> (7 - block % 8)) & 1 == 1;
    }

    /** Marks exactly the named range; bits outside it, the padding of the last
        byte included, keep their value. */
    method NotifyAllocateBlocks(offset: SizeT, innumblocks: SizeT) returns (rc: ErrorT)
      requires Valid() && offset + innumblocks < WORD
      modifies bitmap
      ensures offset + innumblocks > geom.numblocks ==>
                rc == NoSuchBlock && State() == old(State()) && bitmap[..] == old(bitmap[..])
      ensures offset + innumblocks <= geom.numblocks ==>
                && rc == NoError
                && State() == old(State()).(marked := old(State()).marked
                                              + Bitmap.Range(offset, offset + innumblocks))
                && Bitmap.Members(bitmap[..], 8 * bitmap.Length)
                   == Bitmap.Members(old(bitmap[..]), 8 * bitmap.Length)
                      + Bitmap.Range(offset, offset + innumblocks)
    {
      hide ValidGeometry, Bitmap.Members, Bitmap.Range, Bitmap.SetBit, Bitmap.ClearBit;
      if offset + innumblocks > geom.numblocks {
        return NoSuchBlock;
      }
      ghost var n, all := geom.numblocks, 8 * bitmap.Length;
      Bitmap.EmptyRange(offset);
      for i := offset to offset + innumblocks
        invariant Bitmap.Members(bitmap[..], n)
               == Bitmap.Members(old(bitmap[..]), n) + Bitmap.Range(offset, i)
        invariant Bitmap.Members(bitmap[..], all)
               == Bitmap.Members(old(bitmap[..]), all) + Bitmap.Range(offset, i)
      {
        Bitmap.ByteInBounds(i, geom.numblocks);
        Bitmap.NextRange(offset, i);
        ghost var was := bitmap[..];
        bitmap[i / 8] := bitmap[i / 8] | (1 << (7 - i % 8));
        Bitmap.SetBitIs(was, i, bitmap[..]);
        Bitmap.SetAddsOne(was, i, n);
        Bitmap.SetAddsOne(was, i, all);
      }
      rc := NoError;
    }

    method NotifyDeallocateBlocks(offset: SizeT, innumblocks: SizeT) returns (rc: ErrorT)
      requires Valid() && offset + innumblocks < WORD
      modifies bitmap
      ensures offset + innumblocks > geom.numblocks ==>
                rc == NoSuchBlock && State() == old(State()) && bitmap[..] == old(bitmap[..])
      ensures offset + innumblocks <= geom.numblocks ==>
                && rc == NoError
                && State() == old(State()).(marked := old(State()).marked
                                              - Bitmap.Range(offset, offset + innumblocks))
                && Bitmap.Members(bitmap[..], 8 * bitmap.Length)
                   == Bitmap.Members(old(bitmap[..]), 8 * bitmap.Length)
                      - Bitmap.Range(offset, offset + innumblocks)
    {
      hide ValidGeometry, Bitmap.Members, Bitmap.Range, Bitmap.SetBit, Bitmap.ClearBit;
      if offset + innumblocks > geom.numblocks {
        return NoSuchBlock;
      }
      ghost var n, all := geom.numblocks, 8 * bitmap.Length;
      Bitmap.EmptyRange(offset);
      for i := offset to offset + innumblocks
        invariant Bitmap.Members(bitmap[..], n)
               == Bitmap.Members(old(bitmap[..]), n) - Bitmap.Range(offset, i)
        invariant Bitmap.Members(bitmap[..], all)
               == Bitmap.Members(old(bitmap[..]), all) - Bitmap.Range(offset, i)
      {
        Bitmap.ByteInBounds(i, geom.numblocks);
        Bitmap.NextRange(offset, i);
        ghost var was := bitmap[..];
        bitmap[i / 8] := bitmap[i / 8] & !(1 << (7 - i % 8));
        Bitmap.ClearBitIs(was, i, bitmap[..]);
        Bitmap.ClearRemovesOne(was, i, n);
        Bitmap.ClearRemovesOne(was, i, all);
      }
      rc := NoError;
    }
  }
}
