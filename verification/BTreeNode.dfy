/** A tree node in memory (btree_ds.cc): a header and a byte buffer edited in place,
    and its transfer to and from a block of the cache. */
module BTreeNodes {
  import opened Base
  import opened NodeLayout
  import opened BufferCaches
  import opened CacheModel
  import opened CacheRefinement

  class BTreeNode {
    var info: NodeInfo
    var data: array?<Byte>

    ghost predicate Valid()
      reads this, data
    {
      HasData(info) ==>
        && info.blocksize >= HEADER
        && data != null && data.Length == DataBytes(info)
    }

    /** The buffer can be edited through every slot the key count names. */
    ghost predicate Editable()
      reads this, data
    {
      Valid() && (IsInner(info) || IsLeaf(info) ==> Fits(info))
    }

    ghost function AsNode(): (n: Node)
      requires Valid()
      reads this, data
      ensures info.blocksize >= HEADER ==> WellFormed(n)
    {
      Node(info, if HasData(info) then data[..] else [])
    }

    constructor Empty()
      ensures Valid() && info.nodetype == UNALLOCATED_BLOCK && data == null
    {
      info := NodeInfo(UNALLOCATED_BLOCK, 0, 0, 0, 0, 0, 0);
      data := null;
    }

    constructor (nodetype: SizeT, keysize: SizeT, valuesize: SizeT, blocksize: SizeT)
      requires blocksize >= HEADER
      ensures Valid() && fresh(this) && (data != null ==> fresh(data))
      ensures info == NodeInfo(nodetype, keysize, valuesize, blocksize, 0, 0, 0)
      ensures AsNode().data == seq(if HasData(info) then DataBytes(info) else 0, _ => 0)
    {
      info := NodeInfo(nodetype, keysize, valuesize, blocksize, 0, 0, 0);
      data := null;
      new;
      if HasData(info) {
        data := new Byte[DataBytes(info)](_ => 0);
      }
    }

    constructor FromNode(n: Node)
      requires WellFormed(n)
      ensures Valid() && fresh(this) && (data != null ==> fresh(data))
      ensures AsNode() == n
    {
      info := n.info;
      data := null;
      new;
      if HasData(info) {
        data := new Byte[|n.data|](i requires 0 <= i < |n.data| => n.data[i]);
        assert data[..] == n.data;
      }
    }

    // ---- resolving slots --------------------------------------------------------------

    function ResolveKey(offset: SizeT): (p: Option<nat>)
      requires IsInner(info) || IsLeaf(info) ==> offset < info.numkeys
      reads this
      ensures IsInner(info) || IsLeaf(info) ==> p == Some(CellAt(info, KeyCell(offset)))
      ensures !IsInner(info) && !IsLeaf(info) ==> p == None
    {
      if IsInner(info) then Some(PTR_SIZE + offset * (PTR_SIZE + info.keysize))
      else if IsLeaf(info) then Some(PTR_SIZE + offset * (info.keysize + info.valuesize))
      else None
    }

    function ResolvePtr(offset: SizeT): (p: Option<nat>)
      requires IsInner(info) ==> offset <= info.numkeys
      requires IsLeaf(info) ==> offset == 0
      reads this
      ensures IsInner(info) || IsLeaf(info) ==> p == Some(CellAt(info, PtrCell(offset)))
      ensures !IsInner(info) && !IsLeaf(info) ==> p == None
    {
      if IsInner(info) then Some(offset * (PTR_SIZE + info.keysize))
      else if IsLeaf(info) then Some(0)
      else None
    }

    function ResolveVal(offset: SizeT): (p: Option<nat>)
      requires IsLeaf(info) ==> offset < info.numkeys
      reads this
      ensures IsLeaf(info) ==> p == Some(CellAt(info, ValCell(offset)))
      ensures !IsLeaf(info) ==> p == None
    {
      if IsLeaf(info) then
        Some(PTR_SIZE + offset * (info.keysize + info.valuesize) + info.keysize)
      else None
    }

    // ---- reading slots -----------------------------------------------------------------

    method GetKey(offset: SizeT) returns (rc: ErrorT, k: Key)
      requires Editable()
      requires IsInner(info) || IsLeaf(info) ==> offset < info.numkeys
      ensures IsInner(info) || IsLeaf(info) ==> rc == NoError && k == Keys(AsNode())[offset]
      ensures !IsInner(info) && !IsLeaf(info) ==> rc == NoMem
    {
      var p := ResolveKey(offset);
      if p == None {
        return NoMem, [];
      }
      CellsInside(info, KeyCell(offset));
      k := data[p.value..p.value + info.keysize];
      assert k == KeyOf(AsNode(), offset);
      rc := NoError;
    }

    method GetPtr(offset: SizeT) returns (rc: ErrorT, ptr: SizeT)
      requires Editable()
      requires IsInner(info) ==> offset <= info.numkeys
      requires IsLeaf(info) ==> offset == 0
      ensures IsInner(info) ==> rc == NoError && ptr == Ptrs(AsNode())[offset]
      ensures IsLeaf(info) ==> rc == NoError && ptr == Dec32(ReadCell(AsNode(), PtrCell(0)))
      ensures !IsInner(info) && !IsLeaf(info) ==> rc == NoMem
    {
      hide Dec32;
      var p := ResolvePtr(offset);
      if p == None {
        return NoMem, 0;
      }
      CellsInside(info, PtrCell(offset));
      ptr := Dec32(data[p.value..p.value + PTR_SIZE]);
      assert data[p.value..p.value + PTR_SIZE] == ReadCell(AsNode(), PtrCell(offset));
      rc := NoError;
    }

    method GetVal(offset: SizeT) returns (rc: ErrorT, v: Value)
      requires Editable()
      requires IsLeaf(info) ==> offset < info.numkeys
      ensures IsLeaf(info) ==> rc == NoError && v == Pairs(AsNode())[offset].1
      ensures !IsLeaf(info) ==> rc == NoMem
    {
      var p := ResolveVal(offset);
      if p == None {
        return NoMem, [];
      }
      CellsInside(info, ValCell(offset));
      v := data[p.value..p.value + info.valuesize];
      assert v == ValOf(AsNode(), offset);
      rc := NoError;
    }

    method GetKeyVal(offset: SizeT) returns (rc: ErrorT, k: Key, v: Value)
      requires Editable()
      requires IsInner(info) || IsLeaf(info) ==> offset < info.numkeys
      ensures IsLeaf(info) ==> rc == NoError && (k, v) == Pairs(AsNode())[offset]
      ensures IsLeaf(info) ==> |k| == info.keysize && |v| == info.valuesize
      ensures !IsLeaf(info) ==> rc == NoMem
    {
      v := [];
      rc, k := GetKey(offset);
      if rc != NoError {
        return;
      }
      rc, v := GetVal(offset);
    }

    // ---- writing slots -----------------------------------------------------------------

    /** memcpy into the data area. */
    method CopyIn(at: nat, bytes: seq<Byte>)
      requires data != null && at + |bytes| <= data.Length
      modifies data
      ensures data[..] == Put(old(data[..]), at, bytes)
    {
      ghost var was := data[..];
      for j := 0 to |bytes|
        invariant forall i :: 0 <= i < data.Length ==>
          data[i] == if at <= i < at + j then bytes[i - at] else was[i]
      {
        data[at + j] := bytes[j];
      }
      assert data[..] == Put(was, at, bytes);
    }

    method SetKey(offset: SizeT, k: Key) returns (rc: ErrorT)
      requires Editable() && |k| == info.keysize
      requires IsInner(info) || IsLeaf(info) ==> offset < info.numkeys
      modifies data
      ensures Editable()
      ensures IsInner(info) || IsLeaf(info) ==>
                rc == NoError && AsNode() == WriteCell(old(AsNode()), KeyCell(offset), k)
      ensures !IsInner(info) && !IsLeaf(info) ==> rc == NoMem && AsNode() == old(AsNode())
    {
      var p := ResolveKey(offset);
      if p == None {
        return NoMem;
      }
      CellsInside(info, KeyCell(offset));
      CopyIn(p.value, k);
      rc := NoError;
    }

    method SetPtr(offset: SizeT, ptr: SizeT) returns (rc: ErrorT)
      requires Editable()
      requires IsInner(info) ==> offset <= info.numkeys
      requires IsLeaf(info) ==> offset == 0
      modifies data
      ensures Editable()
      ensures IsInner(info) || IsLeaf(info) ==>
                rc == NoError && AsNode() == WriteCell(old(AsNode()), PtrCell(offset), Enc32(ptr))
      ensures !IsInner(info) && !IsLeaf(info) ==> rc == NoMem && AsNode() == old(AsNode())
    {
      var p := ResolvePtr(offset);
      if p == None {
        return NoMem;
      }
      CellsInside(info, PtrCell(offset));
      CopyIn(p.value, Enc32(ptr));
      rc := NoError;
    }

    method SetVal(offset: SizeT, v: Value) returns (rc: ErrorT)
      requires Editable() && |v| == info.valuesize
      requires IsLeaf(info) ==> offset < info.numkeys
      modifies data
      ensures Editable()
      ensures IsLeaf(info) ==>
                rc == NoError && AsNode() == WriteCell(old(AsNode()), ValCell(offset), v)
      ensures !IsLeaf(info) ==> rc == NoMem && AsNode() == old(AsNode())
    {
      var p := ResolveVal(offset);
      if p == None {
        return NoMem;
      }
      CellsInside(info, ValCell(offset));
      CopyIn(p.value, v);
      rc := NoError;
    }

    /** On a leaf the pair is replaced and nothing else changes; on an interior node
        the key is written before the missing value slot is reported. */
    method SetKeyVal(offset: SizeT, k: Key, v: Value) returns (rc: ErrorT)
      requires Editable() && |k| == info.keysize && |v| == info.valuesize
      requires IsInner(info) || IsLeaf(info) ==> offset < info.numkeys
      modifies data
      ensures Editable()
      ensures IsLeaf(info) ==>
                rc == NoError && Pairs(AsNode()) == Pairs(old(AsNode()))[offset := (k, v)]
      ensures IsInner(info) ==>
                rc == NoMem && AsNode() == WriteCell(old(AsNode()), KeyCell(offset), k)
      ensures !IsInner(info) && !IsLeaf(info) ==> rc == NoMem && AsNode() == old(AsNode())
    {
      hide Keys, Pairs, WriteCell;
      rc := SetKey(offset, k);
      if rc != NoError {
        return;
      }
      ghost var mid := AsNode();
      rc := SetVal(offset, v);
      if IsLeaf(info) {
        SetKeyEffect(old(AsNode()), offset, k);
        SetValEffect(mid, offset, v);
      }
    }

    // ---- the leaf shift loop ------------------------------------------------------------

    /** Make room at offset in a leaf that is not full by moving pairs one slot to the
        right, last pair first, and place the new pair there. The key count is raised
        before the loop, because SetKeyVal asserts that its slot is counted. */
    method InsertPair(offset: SizeT, key: Key, value: Value)
      requires Valid() && IsLeaf(info) && Fits(info)
      requires info.numkeys + 1 < WORD && Fits(info.(numkeys := info.numkeys + 1))
      requires offset <= info.numkeys
      requires |key| == info.keysize && |value| == info.valuesize
      modifies this`info, data
      ensures Editable() && data == old(data)
      ensures info == old(info).(numkeys := old(info.numkeys) + 1)
      ensures var was := Pairs(old(AsNode()));
              Pairs(AsNode()) == was[..offset] + [(key, value)] + was[offset..]
    {
      hide Pairs, Fits;
      ghost var was := Pairs(AsNode());
      RaiseCount(AsNode(), info.numkeys + 1);
      var i := info.numkeys;
      info := info.(numkeys := info.numkeys + 1);
      while i > offset
        invariant offset <= i <= |was|
        invariant Editable() && data == old(data)
        invariant info == old(info).(numkeys := old(info.numkeys) + 1)
        invariant forall j :: 0 <= j < i ==> Pairs(AsNode())[j] == was[j]
        invariant forall j :: i < j <= |was| ==> Pairs(AsNode())[j] == was[j - 1]
      {
        var rc, k, v := GetKeyVal(i - 1);
        rc := SetKeyVal(i, k, v);
        i := i - 1;
      }
      var rc := SetKeyVal(offset, key, value);
      assert Pairs(AsNode()) == was[..offset] + [(key, value)] + was[offset..];
    }

    // ---- to and from the cache ---------------------------------------------------------

    /** Writes the header and, for nodes that have it, the data. The rest of the block
        of a node without data is whatever the new buffer held (fill). */
    method Serialize(b: BufferCache, blocknum: SizeT) returns (rc: ErrorT, ghost fill: seq<Byte>)
      requires Valid() && b.Valid() && info.blocksize >= HEADER
      requires info.blocksize == b.disk.geom.blocksize && blocknum < BLOCK_LIMIT
      modifies b`blockmap, b`curtime, b`nwrites, b`diskwrites, b.disk
      ensures b.Valid() && rc == NoError
      ensures |fill| == DataBytes(info)
      ensures b.State() == WriteBlock(old(b.State()), blocknum, Encode(AsNode(), fill)).cache
    {
      hide WriteBlock, EncodeInfo;
      var buffer := new Byte[DataBytes(info)];
      fill := buffer[..];
      var block := EncodeInfo(info) + buffer[..];
      if HasData(info) {
        block := EncodeInfo(info) + data[..];
      }
      rc := b.WriteBlock(blocknum, block);
    }

    /** Replaces the node by what the block holds; on a failed read nothing changes.
        The source asserts that the block was written for this block size. */
    method Unserialize(b: BufferCache, blocknum: SizeT) returns (rc: ErrorT)
      requires b.Valid() && blocknum < BLOCK_LIMIT && b.disk.geom.blocksize >= HEADER
      requires Peek(b.State(), blocknum).Some? ==>
                 && |Peek(b.State(), blocknum).value| == b.disk.geom.blocksize
                 && DecodeInfo(Peek(b.State(), blocknum).value).blocksize == b.disk.geom.blocksize
      modifies this
      modifies b`blockmap, b`curtime, b`nreads, b`diskreads, b`diskwrites, b.disk
      ensures b.Valid()
      ensures b.State() == ReadBlock(old(b.State()), blocknum).cache
      ensures rc == if Peek(old(b.State()), blocknum).Some? then NoError else NoSpace
      ensures rc == NoError ==>
                && Valid() && info.blocksize == b.disk.geom.blocksize
                && AsNode() == Decode(Peek(old(b.State()), blocknum).value)
      ensures rc != NoError ==> info == old(info) && data == old(data)
      ensures rc == NoError ==> if HasData(info) then fresh(data) else data == null
    {
      hide ReadBlock, DecodeInfo;
      ReadKeeps(b.State(), blocknum);
      var block;
      rc, block := b.ReadBlock(blocknum);
      if rc != NoError {
        return;
      }
      info := DecodeInfo(block);
      data := null;
      if HasData(info) {
        var n := DataBytes(info);
        data := new Byte[n](i requires 0 <= i < n => block[HEADER + i]);
        assert data[..] == block[HEADER..];
      }
    }
  }
}
