/** The byte format of tree nodes (btree_ds.h, btree_ds.cc): a 28-byte header of
    seven little-endian words, then slots for pointers, keys and values. */
module NodeLayout {
  import opened Base

  const UNALLOCATED_BLOCK: SizeT := 0
  const SUPERBLOCK: SizeT := 1
  const ROOT_NODE: SizeT := 2
  const INTERIOR_NODE: SizeT := 3
  const LEAF_NODE: SizeT := 4

  const HEADER: nat := 28
  const PTR_SIZE: nat := 4

  /** The source's int nodetype is carried as its 32-bit word. */
  datatype NodeInfo = NodeInfo(
    nodetype: SizeT,
    keysize: SizeT,
    valuesize: SizeT,
    blocksize: SizeT,
    rootnode: SizeT,
    freelist: SizeT,
    numkeys: SizeT)

  /** The value of a node; unallocated blocks and superblocks carry no data. */
  datatype Node = Node(info: NodeInfo, data: seq<Byte>)

  predicate HasData(info: NodeInfo) {
    info.nodetype != UNALLOCATED_BLOCK && info.nodetype != SUPERBLOCK
  }

  predicate IsInner(info: NodeInfo) {
    info.nodetype == ROOT_NODE || info.nodetype == INTERIOR_NODE
  }

  predicate IsLeaf(info: NodeInfo) {
    info.nodetype == LEAF_NODE
  }

  // ---- words -----------------------------------------------------------------------

  function Enc32(w: SizeT): (s: seq<Byte>)
    ensures |s| == 4
  {
    [(w % 256) as Byte, (w / 256 % 256) as Byte,
     (w / 0x1_0000 % 256) as Byte, (w / 0x100_0000) as Byte]
  }

  function Dec32(s: seq<Byte>): SizeT
    requires |s| == 4
  {
    s[0] as int + 256 * (s[1] as int) + 0x1_0000 * (s[2] as int) + 0x100_0000 * (s[3] as int)
  }

  lemma WordRoundTrip(w: SizeT)
    ensures Dec32(Enc32(w)) == w
  {
    var a, b, c := w / 256, w / 0x1_0000, w / 0x100_0000;
    assert a == 256 * b + a % 256;
    assert b == 256 * c + b % 256;
  }

  function EncodeWords(ws: seq<SizeT>): (s: seq<Byte>)
    ensures |s| == 4 * |ws|
  {
    if ws == [] then [] else Enc32(ws[0]) + EncodeWords(ws[1..])
  }

  function DecodeWords(s: seq<Byte>, n: nat): (ws: seq<SizeT>)
    requires |s| >= 4 * n
    ensures |ws| == n
  {
    if n == 0 then [] else [Dec32(s[..4])] + DecodeWords(s[4..], n - 1)
  }

  lemma {:induction false} WordsRoundTrip(ws: seq<SizeT>, rest: seq<Byte>)
    ensures DecodeWords(EncodeWords(ws) + rest, |ws|) == ws
    decreases |ws|
  {
    if ws != [] {
      var s := EncodeWords(ws) + rest;
      assert s[..4] == Enc32(ws[0]);
      assert s[4..] == EncodeWords(ws[1..]) + rest;
      WordRoundTrip(ws[0]);
      WordsRoundTrip(ws[1..], rest);
    }
  }

  // ---- blocks ----------------------------------------------------------------------

  function InfoWords(i: NodeInfo): seq<SizeT> {
    [i.nodetype, i.keysize, i.valuesize, i.blocksize, i.rootnode, i.freelist, i.numkeys]
  }

  function EncodeInfo(i: NodeInfo): (s: seq<Byte>)
    ensures |s| == HEADER
  {
    EncodeWords(InfoWords(i))
  }

  function DecodeInfo(s: seq<Byte>): NodeInfo
    requires |s| >= HEADER
  {
    var w := DecodeWords(s, 7);
    NodeInfo(w[0], w[1], w[2], w[3], w[4], w[5], w[6])
  }

  function DataBytes(info: NodeInfo): nat
    requires info.blocksize >= HEADER
  {
    info.blocksize - HEADER
  }

  predicate WellFormed(n: Node) {
    && n.info.blocksize >= HEADER
    && |n.data| == if HasData(n.info) then DataBytes(n.info) else 0
  }

  /** What Serialize writes. The source copies data only for nodes that have some;
      for the others the rest of the block is uninitialised memory, here fill. */
  function Encode(n: Node, fill: seq<Byte>): (b: Block)
    requires WellFormed(n) && |fill| == DataBytes(n.info)
    ensures |b| == n.info.blocksize
  {
    EncodeInfo(n.info) + (if HasData(n.info) then n.data else fill)
  }

  /** What Unserialize makes of a block. */
  function Decode(b: Block): Node
    requires |b| >= HEADER
  {
    var info := DecodeInfo(b);
    Node(info, if HasData(info) then b[HEADER..] else [])
  }

  /** Serialize then Unserialize restores metadata and data for every node type,
      whatever the uninitialised bytes were, and a block is exactly the header plus
      the data bytes. */
  lemma NodeRoundTrip(n: Node, fill: seq<Byte>)
    requires WellFormed(n) && |fill| == DataBytes(n.info)
    ensures |Encode(n, fill)| == HEADER + DataBytes(n.info)
    ensures Decode(Encode(n, fill)) == n
  {
    hide EncodeWords, DecodeWords;
    var tail := if HasData(n.info) then n.data else fill;
    WordsRoundTrip(InfoWords(n.info), tail);
    assert DecodeInfo(Encode(n, fill)) == n.info;
    assert Encode(n, fill)[HEADER..] == tail;
  }

  lemma {:induction false} WordAt(ws: seq<SizeT>, k: nat)
    requires k < |ws|
    ensures EncodeWords(ws)[4 * k..4 * k + 4] == Enc32(ws[k])
    decreases k
  {
    if k > 0 {
      WordAt(ws[1..], k - 1);
      assert EncodeWords(ws)[4 * k..4 * k + 4] == EncodeWords(ws[1..])[4 * (k - 1)..4 * (k - 1) + 4];
    }
  }

  /** Where the header fields lie in a serialized block: the order of the source's
      struct, one word each. */
  lemma HeaderLayout(n: Node, fill: seq<Byte>)
    requires WellFormed(n) && |fill| == DataBytes(n.info)
    ensures var b := Encode(n, fill);
            && b[0..4] == Enc32(n.info.nodetype) && b[4..8] == Enc32(n.info.keysize)
            && b[8..12] == Enc32(n.info.valuesize) && b[12..16] == Enc32(n.info.blocksize)
            && b[16..20] == Enc32(n.info.rootnode) && b[20..24] == Enc32(n.info.freelist)
            && b[24..28] == Enc32(n.info.numkeys)
  {
    hide Enc32, EncodeWords;
    var b, ws := Encode(n, fill), InfoWords(n.info);
    forall k | 0 <= k < 7
      ensures b[4 * k..4 * k + 4] == Enc32(ws[k])
    {
      WordAt(ws, k);
      assert b[4 * k..4 * k + 4] == EncodeWords(ws)[4 * k..4 * k + 4];
    }
    assert b[4 * 0..4 * 0 + 4] == Enc32(ws[0]) && b[4 * 1..4 * 1 + 4] == Enc32(ws[1]);
    assert b[4 * 2..4 * 2 + 4] == Enc32(ws[2]) && b[4 * 3..4 * 3 + 4] == Enc32(ws[3]);
    assert b[4 * 4..4 * 4 + 4] == Enc32(ws[4]) && b[4 * 5..4 * 5 + 4] == Enc32(ws[5]);
    assert b[4 * 6..4 * 6 + 4] == Enc32(ws[6]);
  }

  /** The number that four bytes from position at stand for, least significant first. */
  function LittleEndian(b: seq<Byte>, at: nat): int
    requires at + 4 <= |b|
  {
    b[at] as int + b[at + 1] as int * 0x100 + b[at + 2] as int * 0x1_0000
    + b[at + 3] as int * 0x100_0000
  }

  lemma Dec32IsLittleEndian(b: seq<Byte>, at: nat)
    requires at + 4 <= |b|
    ensures Dec32(b[at..at + 4]) == LittleEndian(b, at)
  {
    var s := b[at..at + 4];
    assert s[0] == b[at] && s[1] == b[at + 1] && s[2] == b[at + 2] && s[3] == b[at + 3];
  }

  lemma {:induction false} DecodedWordAt(b: seq<Byte>, n: nat, k: nat)
    requires k < n && 4 * n <= |b|
    ensures DecodeWords(b, n)[k] == Dec32(b[4 * k..4 * k + 4])
    decreases k
  {
    if k > 0 {
      DecodedWordAt(b[4..], n - 1, k - 1);
      assert b[4..][4 * (k - 1)..4 * (k - 1) + 4] == b[4 * k..4 * k + 4];
    }
  }

  /** What the bytes of any block mean: seven little-endian words, and after them, from
      byte 28 on, the data area of every type but 0 (unallocated) and 1 (superblock). */
  lemma DecodedFields(b: Block)
    requires |b| >= 28
    ensures var n := Decode(b);
            && n.info.nodetype == LittleEndian(b, 0) && n.info.keysize == LittleEndian(b, 4)
            && n.info.valuesize == LittleEndian(b, 8) && n.info.blocksize == LittleEndian(b, 12)
            && n.info.rootnode == LittleEndian(b, 16) && n.info.freelist == LittleEndian(b, 20)
            && n.info.numkeys == LittleEndian(b, 24)
            && n.data == if LittleEndian(b, 0) == 0 || LittleEndian(b, 0) == 1 then [] else b[28..]
  {
    hide Dec32, LittleEndian, DecodeWords;
    forall k: nat | k < 7
      ensures DecodeWords(b, 7)[k] == LittleEndian(b, 4 * k)
    {
      DecodedWordAt(b, 7, k);
      Dec32IsLittleEndian(b, 4 * k);
    }
    assert LittleEndian(b, 4 * 0) == DecodeWords(b, 7)[0] && LittleEndian(b, 4 * 1) == DecodeWords(b, 7)[1];
    assert LittleEndian(b, 4 * 2) == DecodeWords(b, 7)[2] && LittleEndian(b, 4 * 3) == DecodeWords(b, 7)[3];
    assert LittleEndian(b, 4 * 4) == DecodeWords(b, 7)[4] && LittleEndian(b, 4 * 5) == DecodeWords(b, 7)[5];
    assert LittleEndian(b, 4 * 6) == DecodeWords(b, 7)[6];
  }

  /** ... and so what a serialized node looks like on the disk. */
  lemma EncodedFields(n: Node, fill: seq<Byte>)
    requires WellFormed(n) && |fill| == DataBytes(n.info)
    ensures var b := Encode(n, fill);
            && LittleEndian(b, 0) == n.info.nodetype && LittleEndian(b, 4) == n.info.keysize
            && LittleEndian(b, 8) == n.info.valuesize && LittleEndian(b, 12) == n.info.blocksize
            && LittleEndian(b, 16) == n.info.rootnode && LittleEndian(b, 20) == n.info.freelist
            && LittleEndian(b, 24) == n.info.numkeys
            && (n.info.nodetype != 0 && n.info.nodetype != 1 ==> b[28..] == n.data)
  {
    hide LittleEndian, Encode, Decode;
    NodeRoundTrip(n, fill);
    DecodedFields(Encode(n, fill));
  }

  // ---- slots -----------------------------------------------------------------------

  function NumSlotsAsInterior(info: NodeInfo): nat
    requires info.blocksize >= HEADER + PTR_SIZE
  {
    (DataBytes(info) - PTR_SIZE) / (info.keysize + PTR_SIZE)
  }

  function NumSlotsAsLeaf(info: NodeInfo): nat
    requires info.blocksize >= HEADER + PTR_SIZE && 0 < info.keysize + info.valuesize
  {
    (DataBytes(info) - PTR_SIZE) / (info.keysize + info.valuesize)
  }

  /** Bytes from one key to the next. */
  function Stride(info: NodeInfo): nat {
    if IsLeaf(info) then info.keysize + info.valuesize else PTR_SIZE + info.keysize
  }

  /** All slots of the node lie inside its data area. */
  predicate Fits(info: NodeInfo) {
    && info.blocksize >= HEADER
    && PTR_SIZE + info.numkeys * Stride(info) <= DataBytes(info)
  }

  lemma QuotientBound(n: nat, m: nat, s: nat)
    requires 0 < s
    ensures n <= m / s <==> n * s <= m
  {
    var q, r := m / s, m % s;
    assert m == s * q + r;
    if n <= q {
      Multiples(n, q, s);
    } else {
      Multiples(q + 1, n, s);
      assert (q + 1) * s == q * s + s;
    }
  }

  lemma Multiples(a: nat, b: nat, s: nat)
    requires a <= b
    ensures a * s <= b * s
    ensures a < b ==> a * s + s <= b * s
  {
    if a < b {
      Gap(s, a, b);
    }
  }

  /** The slot counts are the exact capacity: a node fits if and only if its key
      count is at most the count the source computes by floor division. */
  lemma SlotCountIsCapacity(info: NodeInfo)
    requires info.blocksize >= HEADER + PTR_SIZE
    requires IsInner(info) || (IsLeaf(info) && 0 < info.keysize + info.valuesize)
    ensures IsInner(info) ==> (Fits(info) <==> info.numkeys <= NumSlotsAsInterior(info))
    ensures IsLeaf(info) ==> (Fits(info) <==> info.numkeys <= NumSlotsAsLeaf(info))
  {
    QuotientBound(info.numkeys, DataBytes(info) - PTR_SIZE, Stride(info));
  }

  // ---- cells -----------------------------------------------------------------------

  datatype Cell = PtrCell(i: nat) | KeyCell(i: nat) | ValCell(i: nat)

  /** The cells the Get and Set functions accept without failing or asserting. */
  predicate ValidCell(info: NodeInfo, c: Cell) {
    match c
    case PtrCell(i) => if IsInner(info) then i <= info.numkeys else IsLeaf(info) && i == 0
    case KeyCell(i) => (IsInner(info) || IsLeaf(info)) && i < info.numkeys
    case ValCell(i) => IsLeaf(info) && i < info.numkeys
  }

  /** Where the Resolve functions point, as an offset into the data area. */
  function CellAt(info: NodeInfo, c: Cell): nat {
    match c
    case PtrCell(i) => i * Stride(info)
    case KeyCell(i) => PTR_SIZE + i * Stride(info)
    case ValCell(i) => PTR_SIZE + i * Stride(info) + info.keysize
  }

  function CellLen(info: NodeInfo, c: Cell): nat {
    match c
    case PtrCell(_) => PTR_SIZE
    case KeyCell(_) => info.keysize
    case ValCell(_) => info.valuesize
  }

  predicate Apart(a: nat, alen: nat, b: nat, blen: nat) {
    a + alen <= b || b + blen <= a
  }

  /** Every cell of a node that fits lies inside the data area. */
  lemma CellsInside(info: NodeInfo, c: Cell)
    requires Fits(info) && ValidCell(info, c)
    ensures CellAt(info, c) + CellLen(info, c) <= DataBytes(info)
  {
    Multiples(c.i, info.numkeys, Stride(info));
  }

  /** Two different cells of a node never share a byte. */
  lemma CellsApart(info: NodeInfo, c: Cell, d: Cell)
    requires ValidCell(info, c) && ValidCell(info, d) && c != d
    ensures Apart(CellAt(info, c), CellLen(info, c), CellAt(info, d), CellLen(info, d))
  {
    if c.i < d.i {
      Multiples(c.i, d.i, Stride(info));
    } else if d.i < c.i {
      Multiples(d.i, c.i, Stride(info));
    }
  }

  /** The cells follow one another without gaps: pointer, key, pointer, key, ...,
      pointer in an interior node; one pointer, then key, value, key, value, ... in a
      leaf. */
  lemma CellsAdjoin(info: NodeInfo, i: nat)
    requires IsInner(info) || IsLeaf(info)
    ensures CellAt(info, PtrCell(0)) == 0
    ensures IsInner(info) ==>
              && CellAt(info, KeyCell(i)) == CellAt(info, PtrCell(i)) + CellLen(info, PtrCell(i))
              && CellAt(info, PtrCell(i + 1)) == CellAt(info, KeyCell(i)) + CellLen(info, KeyCell(i))
    ensures IsLeaf(info) ==>
              && CellAt(info, KeyCell(0)) == CellLen(info, PtrCell(0))
              && CellAt(info, ValCell(i)) == CellAt(info, KeyCell(i)) + CellLen(info, KeyCell(i))
              && CellAt(info, KeyCell(i + 1)) == CellAt(info, ValCell(i)) + CellLen(info, ValCell(i))
  {
    NextMultiple(i, Stride(info));
  }

  lemma NextMultiple(i: nat, s: nat)
    ensures (i + 1) * s == i * s + s
  {
  }

  function Put(data: seq<Byte>, at: nat, bytes: seq<Byte>): (r: seq<Byte>)
    requires at + |bytes| <= |data|
    ensures |r| == |data|
  {
    data[..at] + bytes + data[at + |bytes|..]
  }

  function Get(data: seq<Byte>, at: nat, len: nat): seq<Byte>
    requires at + len <= |data|
  {
    data[at..at + len]
  }

  lemma PutGet(data: seq<Byte>, at: nat, bytes: seq<Byte>, at': nat, len: nat)
    requires at + |bytes| <= |data| && at' + len <= |data|
    ensures at' == at && len == |bytes| ==> Get(Put(data, at, bytes), at', len) == bytes
    ensures Apart(at, |bytes|, at', len) ==> Get(Put(data, at, bytes), at', len) == Get(data, at', len)
  {
    if Apart(at, |bytes|, at', len) {
      assert Get(Put(data, at, bytes), at', len) == Get(data, at', len);
    }
  }

  /** A node whose slots can all be used. */
  predicate Usable(n: Node) {
    WellFormed(n) && HasData(n.info) && Fits(n.info)
  }

  function ReadCell(n: Node, c: Cell): (s: seq<Byte>)
    requires Usable(n) && ValidCell(n.info, c)
    ensures |s| == CellLen(n.info, c)
  {
    CellsInside(n.info, c);
    Get(n.data, CellAt(n.info, c), CellLen(n.info, c))
  }

  function WriteCell(n: Node, c: Cell, bytes: seq<Byte>): (m: Node)
    requires Usable(n) && ValidCell(n.info, c) && |bytes| == CellLen(n.info, c)
    ensures Usable(m) && m.info == n.info
  {
    CellsInside(n.info, c);
    n.(data := Put(n.data, CellAt(n.info, c), bytes))
  }

  /** Each Set is read back by its Get and changes no other cell. */
  lemma SetThenGet(n: Node, c: Cell, bytes: seq<Byte>, d: Cell)
    requires Usable(n) && ValidCell(n.info, c) && ValidCell(n.info, d)
    requires |bytes| == CellLen(n.info, c)
    ensures ReadCell(WriteCell(n, c, bytes), d) == if d == c then bytes else ReadCell(n, d)
  {
    hide Get, Put, Fits, CellAt;
    CellsInside(n.info, c);
    CellsInside(n.info, d);
    PutGet(n.data, CellAt(n.info, c), bytes, CellAt(n.info, d), CellLen(n.info, d));
    if c != d {
      CellsApart(n.info, c, d);
    }
  }

  // ---- the contents of a node ----------------------------------------------------------

  function KeyOf(n: Node, i: nat): Key
    requires Usable(n) && (IsInner(n.info) || IsLeaf(n.info)) && i < n.info.numkeys
  {
    ReadCell(n, KeyCell(i))
  }

  function PtrOf(n: Node, i: nat): SizeT
    requires Usable(n) && IsInner(n.info) && i <= n.info.numkeys
  {
    Dec32(ReadCell(n, PtrCell(i)))
  }

  function ValOf(n: Node, i: nat): Value
    requires Usable(n) && IsLeaf(n.info) && i < n.info.numkeys
  {
    ReadCell(n, ValCell(i))
  }

  function Keys(n: Node): (s: seq<Key>)
    requires Usable(n) && (IsInner(n.info) || IsLeaf(n.info))
    ensures |s| == n.info.numkeys
  {
    seq(n.info.numkeys, i requires 0 <= i < n.info.numkeys => KeyOf(n, i))
  }

  function Ptrs(n: Node): (s: seq<SizeT>)
    requires Usable(n) && IsInner(n.info)
    ensures |s| == n.info.numkeys + 1
  {
    seq(n.info.numkeys + 1, i requires 0 <= i <= n.info.numkeys => PtrOf(n, i))
  }

  function Pairs(n: Node): (s: seq<(Key, Value)>)
    requires Usable(n) && IsLeaf(n.info)
    ensures |s| == n.info.numkeys
  {
    seq(n.info.numkeys, i requires 0 <= i < n.info.numkeys => (KeyOf(n, i), ValOf(n, i)))
  }

  /** Where the pairs of a leaf (type 4) lie in its block: from byte 32 on, key and value
      by turns. */
  lemma LeafBytes(b: Block, i: nat, at: nat)
    requires |b| >= 28 && Decode(b).info.blocksize == |b| && Usable(Decode(b))
    requires Decode(b).info.nodetype == 4 && i < Decode(b).info.numkeys
    requires at == 32 + i * (Decode(b).info.keysize + Decode(b).info.valuesize)
    ensures IsLeaf(Decode(b).info)
    ensures var n := Decode(b);
            var mid, end := at + n.info.keysize, at + n.info.keysize + n.info.valuesize;
            end <= |b| && Pairs(n)[i] == (b[at..mid], b[mid..end])
    ensures Dec32(ReadCell(Decode(b), PtrCell(0))) == LittleEndian(b, 28)
  {
    hide Fits, Dec32, LittleEndian, DecodeInfo;
    var n := Decode(b);
    CellsInside(n.info, KeyCell(i));
    CellsInside(n.info, ValCell(i));
    CellsInside(n.info, PtrCell(0));
    ReadCellIs(b, KeyCell(i));
    ReadCellIs(b, ValCell(i));
    ReadCellIs(b, PtrCell(0));
    Dec32IsLittleEndian(b, 28);
  }

  /** Where the pointers and keys of an interior node (types 2 and 3) lie in its block:
      from byte 28 on, pointer and key by turns, one pointer at the end. */
  lemma InnerBytes(b: Block, i: nat, at: nat)
    requires |b| >= 28 && Decode(b).info.blocksize == |b| && Usable(Decode(b))
    requires Decode(b).info.nodetype == 2 || Decode(b).info.nodetype == 3
    requires i <= Decode(b).info.numkeys && at == 28 + i * (4 + Decode(b).info.keysize)
    ensures IsInner(Decode(b).info)
    ensures at + 4 <= |b| && Ptrs(Decode(b))[i] == LittleEndian(b, at)
    ensures var n := Decode(b);
            i < n.info.numkeys ==>
              at + 4 + n.info.keysize <= |b| && Keys(n)[i] == b[at + 4..at + 4 + n.info.keysize]
  {
    hide Fits, Dec32, LittleEndian, DecodeInfo;
    var n := Decode(b);
    CellsInside(n.info, PtrCell(i));
    ReadCellIs(b, PtrCell(i));
    Dec32IsLittleEndian(b, at);
    if i < n.info.numkeys {
      CellsInside(n.info, KeyCell(i));
      ReadCellIs(b, KeyCell(i));
    }
  }

  lemma ReadCellIs(b: Block, c: Cell)
    requires |b| >= 28 && Decode(b).info.blocksize == |b|
    requires Usable(Decode(b)) && ValidCell(Decode(b).info, c)
    ensures var n := Decode(b);
            var at := 28 + CellAt(n.info, c);
            at + CellLen(n.info, c) <= |b|
            && ReadCell(n, c) == b[at..at + CellLen(n.info, c)]
  {
    hide Fits, DecodeInfo, CellAt, CellLen;
    var n := Decode(b);
    CellsInside(n.info, c);
    assert n.data == b[28..];
  }

  /** What SetKey does to the contents of a node. */
  lemma SetKeyEffect(n: Node, i: nat, k: Key)
    requires Usable(n) && ValidCell(n.info, KeyCell(i)) && |k| == n.info.keysize
    ensures var m := WriteCell(n, KeyCell(i), k);
            && Keys(m) == Keys(n)[i := k]
            && (IsInner(n.info) ==> Ptrs(m) == Ptrs(n))
            && (IsLeaf(n.info) ==> Pairs(m) == Pairs(n)[i := (k, Pairs(n)[i].1)])
  {
    hide ReadCell, WriteCell, Fits, WellFormed;
    var m := WriteCell(n, KeyCell(i), k);
    forall j | 0 <= j < n.info.numkeys
      ensures KeyOf(m, j) == if j == i then k else KeyOf(n, j)
    {
      SetThenGet(n, KeyCell(i), k, KeyCell(j));
    }
    if IsInner(n.info) {
      forall j | 0 <= j <= n.info.numkeys
        ensures PtrOf(m, j) == PtrOf(n, j)
      {
        SetThenGet(n, KeyCell(i), k, PtrCell(j));
      }
    } else {
      forall j | 0 <= j < n.info.numkeys
        ensures ValOf(m, j) == ValOf(n, j)
      {
        SetThenGet(n, KeyCell(i), k, ValCell(j));
      }
    }
  }

  /** What SetPtr does to the contents of a node: one pointer of an interior node, or
      the one pointer slot of a leaf, which holds no key and no value. */
  lemma SetPtrEffect(n: Node, i: nat, p: SizeT)
    requires Usable(n) && ValidCell(n.info, PtrCell(i))
    ensures var m := WriteCell(n, PtrCell(i), Enc32(p));
            && Keys(m) == Keys(n)
            && (IsInner(n.info) ==> Ptrs(m) == Ptrs(n)[i := p])
            && (IsLeaf(n.info) ==> Pairs(m) == Pairs(n) && Dec32(ReadCell(m, PtrCell(0))) == p)
  {
    hide ReadCell, WriteCell, Fits, WellFormed, Enc32, Dec32;
    var m := WriteCell(n, PtrCell(i), Enc32(p));
    WordRoundTrip(p);
    forall j | 0 <= j < n.info.numkeys
      ensures KeyOf(m, j) == KeyOf(n, j)
    {
      SetThenGet(n, PtrCell(i), Enc32(p), KeyCell(j));
    }
    if IsInner(n.info) {
      forall j | 0 <= j <= n.info.numkeys
        ensures PtrOf(m, j) == if j == i then p else PtrOf(n, j)
      {
        SetThenGet(n, PtrCell(i), Enc32(p), PtrCell(j));
      }
    } else {
      SetThenGet(n, PtrCell(0), Enc32(p), PtrCell(0));
      forall j | 0 <= j < n.info.numkeys
        ensures ValOf(m, j) == ValOf(n, j)
      {
        SetThenGet(n, PtrCell(0), Enc32(p), ValCell(j));
      }
    }
  }

  /** What SetVal does to the contents of a leaf. */
  lemma SetValEffect(n: Node, i: nat, v: Value)
    requires Usable(n) && ValidCell(n.info, ValCell(i)) && |v| == n.info.valuesize
    ensures var m := WriteCell(n, ValCell(i), v);
            && Keys(m) == Keys(n)
            && Pairs(m) == Pairs(n)[i := (Pairs(n)[i].0, v)]
  {
    hide ReadCell, WriteCell, Fits, WellFormed;
    var m := WriteCell(n, ValCell(i), v);
    forall j | 0 <= j < n.info.numkeys
      ensures KeyOf(m, j) == KeyOf(n, j)
      ensures ValOf(m, j) == if j == i then v else ValOf(n, j)
    {
      SetThenGet(n, ValCell(i), v, KeyCell(j));
      SetThenGet(n, ValCell(i), v, ValCell(j));
    }
  }

  /** The slots the shift loop of Insert writes, offset + 1 .. numkeys, are all counted
      exactly when there is nothing to shift: with the key count raised only after the
      loop, as the source has it, the first SetKeyVal fails its assertion. */
  lemma ShiftIsCountedIff(info: NodeInfo, offset: nat)
    requires IsLeaf(info) && offset <= info.numkeys
    ensures (forall i :: offset < i <= info.numkeys ==> ValidCell(info, KeyCell(i)))
            <==> offset == info.numkeys
    ensures info.numkeys + 1 < WORD ==>
              forall i :: offset <= i <= info.numkeys ==>
                ValidCell(info.(numkeys := info.numkeys + 1), KeyCell(i))
  {
    if offset < info.numkeys {
      assert !ValidCell(info, KeyCell(info.numkeys));
    }
  }

  /** Raising the key count of a leaf keeps every pair it already held. */
  lemma RaiseCount(n: Node, count: SizeT)
    requires Usable(n) && IsLeaf(n.info) && n.info.numkeys <= count
    requires Fits(n.info.(numkeys := count))
    ensures var m := n.(info := n.info.(numkeys := count));
            Usable(m) && Pairs(m)[..n.info.numkeys] == Pairs(n)
  {
  }
}
