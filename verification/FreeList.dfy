/** The block allocator (btree.cc, AllocateNode, DeallocateNode, Attach): a chain of
    free blocks threaded through the stored nodes, with the head in a superblock kept
    both in memory and in block 0. */
module FreeList {
  import opened Base
  import opened NodeLayout
  import Bitmap

  /** An index volume: the node each block decodes to, the superblock in memory and
      the blocks the disk's bitmap marks as allocated. */
  datatype Volume = Volume(store: seq<Node>, super: Node, marked: set<nat>)

  // ---- what the source does ---------------------------------------------------------

  /** The assertions and block numbers AllocateNode relies on. */
  ghost predicate CanAllocate(v: Volume) {
    v.store != []
    && (v.super.info.freelist != 0 ==>
          v.super.info.freelist < |v.store|
          && v.store[v.super.info.freelist].info.nodetype == UNALLOCATED_BLOCK)
  }

  datatype Grant = Grant(volume: Volume, rc: ErrorT, n: nat)

  ghost function Allocate(v: Volume): Grant
    requires CanAllocate(v)
  {
    var n := v.super.info.freelist;
    if n == 0 then Grant(v, NoSpace, 0)
    else
      var super := v.super.(info := v.super.info.(freelist := v.store[n].info.freelist));
      Grant(Volume(v.store[0 := super], super, v.marked + {n}), NoError, n)
  }

  ghost predicate CanFree(v: Volume, n: SizeT) {
    n < |v.store| && v.store[n].info.nodetype != UNALLOCATED_BLOCK
  }

  ghost function Deallocate(v: Volume, n: SizeT): Volume
    requires CanFree(v, n)
  {
    var node := Node(v.store[n].info.(nodetype := UNALLOCATED_BLOCK, freelist := v.super.info.freelist), []);
    var super := v.super.(info := v.super.info.(freelist := n));
    Volume(v.store[n := node][0 := super], super, v.marked - {n})
  }

  /** A caller writes a node to a block it owns. */
  ghost function Stamp(v: Volume, n: nat, node: Node): Volume
    requires n < |v.store|
  {
    v.(store := v.store[n := node])
  }

  function FreshInfo(nodetype: SizeT, keysize: SizeT, valuesize: SizeT, blocksize: SizeT, freelist: SizeT): NodeInfo {
    NodeInfo(nodetype, keysize, valuesize, blocksize, 1, freelist, 0)
  }

  /** A node as its constructor leaves it: the data area zeroed. */
  function Blank(info: NodeInfo): Node
    requires info.blocksize >= HEADER
  {
    Node(info, if HasData(info) then seq(DataBytes(info), _ => 0) else [])
  }

  /** The node Attach(create) writes to block i of an index of n blocks. */
  function FreshNode(n: SizeT, keysize: SizeT, valuesize: SizeT, blocksize: SizeT, i: nat): Node
    requires blocksize >= HEADER && i < n
  {
    if i == 0 then Blank(FreshInfo(SUPERBLOCK, keysize, valuesize, blocksize, 2))
    else if i == 1 then Blank(FreshInfo(ROOT_NODE, keysize, valuesize, blocksize, 2))
    else Blank(FreshInfo(UNALLOCATED_BLOCK, keysize, valuesize, blocksize, if i + 1 == n then 0 else i + 1))
  }

  /** The volume Attach(create) leaves on a disk of n blocks: the root is marked as
      allocated only if its block exists. */
  ghost function Format(n: SizeT, keysize: SizeT, valuesize: SizeT, blocksize: SizeT, marked: set<nat>): Volume
    requires blocksize >= HEADER && 0 < n
  {
    Volume(seq(n, i requires 0 <= i < n => FreshNode(n, keysize, valuesize, blocksize, i)),
           FreshNode(n, keysize, valuesize, blocksize, 0), marked + (if n == 1 then {0} else {0, 1}))
  }

  // ---- the chain ----------------------------------------------------------------------

  /** Following freelist links from head visits exactly chain and ends at 0; every
      block on the way is of the unallocated type. */
  ghost predicate IsChain(store: seq<Node>, head: SizeT, chain: seq<nat>)
    decreases |chain|
  {
    if chain == [] then head == 0
    else
      && head == chain[0] && 0 < head < |store|
      && store[head].info.nodetype == UNALLOCATED_BLOCK
      && IsChain(store, store[head].info.freelist, chain[1..])
  }

  lemma {:induction false} ChainUnique(store: seq<Node>, head: SizeT, a: seq<nat>, b: seq<nat>)
    requires IsChain(store, head, a) && IsChain(store, head, b)
    ensures a == b
    decreases |a|
  {
    if a != [] {
      ChainUnique(store, store[head].info.freelist, a[1..], b[1..]);
      assert a == [a[0]] + a[1..] && b == [b[0]] + b[1..];
    }
  }

  lemma {:induction false} ChainSuffix(store: seq<Node>, head: SizeT, chain: seq<nat>, i: nat)
    requires IsChain(store, head, chain) && i < |chain|
    ensures chain[i] < |store| && chain[i] < WORD && 0 < chain[i]
    ensures store[chain[i]].info.nodetype == UNALLOCATED_BLOCK
    ensures IsChain(store, chain[i], chain[i..])
    decreases i
  {
    if i > 0 {
      ChainSuffix(store, store[head].info.freelist, chain[1..], i - 1);
      assert chain[1..][i - 1..] == chain[i..];
    } else {
      assert chain[0..] == chain;
    }
  }

  /** A chain that ends cannot visit a block twice. */
  lemma ChainAcyclic(store: seq<Node>, head: SizeT, chain: seq<nat>, i: nat, j: nat)
    requires IsChain(store, head, chain) && i < j < |chain|
    ensures chain[i] != chain[j]
  {
    ChainSuffix(store, head, chain, i);
    ChainSuffix(store, head, chain, j);
    if chain[i] == chain[j] {
      ChainUnique(store, chain[i], chain[i..], chain[j..]);
    }
  }

  /** Blocks off the chain can change without disturbing it. */
  lemma {:induction false} ChainFrame(store: seq<Node>, store': seq<Node>, head: SizeT, chain: seq<nat>)
    requires IsChain(store, head, chain) && |store'| == |store|
    requires forall i :: 0 <= i < |chain| && chain[i] < |store| ==> store'[chain[i]] == store[chain[i]]
    ensures IsChain(store', head, chain)
    decreases |chain|
  {
    if chain != [] {
      assert store'[chain[0]] == store[chain[0]];
      assert forall i :: 0 <= i < |chain[1..]| ==> chain[1..][i] == chain[i + 1];
      ChainFrame(store, store', store[head].info.freelist, chain[1..]);
    }
  }

  // ---- the invariant --------------------------------------------------------------------

  ghost function Blocks(v: Volume): set<nat> {
    Bitmap.Range(0, |v.store|)
  }

  /** The chain avoids blocks 0 and 1, the bitmap marks exactly the blocks off the
      chain, the superblock in memory equals block 0, and every stored node was
      written for this block size. */
  ghost predicate VolumeOk(v: Volume, chain: seq<nat>) {
    && |v.store| >= 2
    && IsChain(v.store, v.super.info.freelist, chain)
    && (forall i :: 0 <= i < |chain| ==> 2 <= chain[i] < |v.store|)
    && v.marked == Blocks(v) - Elements(chain)
    && v.store[0] == v.super && v.super.info.nodetype == SUPERBLOCK
    && (forall i :: 0 <= i < |v.store| ==> v.store[i].info.blocksize == v.super.info.blocksize)
  }

  /** Free and live blocks partition the volume: their numbers always add up. */
  lemma Conservation(v: Volume, chain: seq<nat>)
    requires VolumeOk(v, chain)
    ensures |chain| + |v.marked| == |v.store|
    ensures Elements(chain) !! v.marked && Elements(chain) + v.marked == Blocks(v)
  {
    forall i, j | 0 <= i < j < |chain|
      ensures chain[i] != chain[j]
    {
      ChainAcyclic(v.store, v.super.info.freelist, chain, i, j);
    }
    DistinctCount(chain);
    BlocksCount(|v.store|);
    assert Elements(chain) <= Blocks(v);
    assert |Blocks(v) - Elements(chain)| == |Blocks(v)| - |Elements(chain)|;
  }

  lemma {:induction false} DistinctCount(s: seq<nat>)
    requires forall i, j :: 0 <= i < j < |s| ==> s[i] != s[j]
    ensures |Elements(s)| == |s|
    decreases |s|
  {
    if s == [] {
      assert Elements(s) == {};
    } else {
      DistinctCount(s[1..]);
      assert Elements(s) == {s[0]} + Elements(s[1..]);
      assert s[0] !in Elements(s[1..]);
    }
  }

  lemma {:induction false} BlocksCount(n: nat)
    ensures |Bitmap.Range(0, n)| == n
    decreases n
  {
    if n == 0 {
      assert Bitmap.Range(0, n) == {};
    } else {
      BlocksCount(n - 1);
      Bitmap.NextRange(0, n - 1);
    }
  }

  lemma AllocateKeeps(v: Volume, chain: seq<nat>)
    requires VolumeOk(v, chain)
    ensures CanAllocate(v)
    ensures var g := Allocate(v);
            if chain == [] then g == Grant(v, NoSpace, 0)
            else
              && g.rc == NoError && g.n == chain[0]
              && g.n !in v.marked && g.volume.marked == v.marked + {g.n}
              && VolumeOk(g.volume, chain[1..])
              && (forall i :: 0 < i < |v.store| ==> g.volume.store[i] == v.store[i])
  {
    if chain != [] {
      var w := Allocate(v).volume;
      var head := v.super.info.freelist;
      ChainFrame(v.store, w.store, v.store[head].info.freelist, chain[1..]);
      assert Elements(chain) == {chain[0]} + Elements(chain[1..]);
      assert chain[0] !in Elements(chain[1..]) by {
        HeadNotInTail(v.store, head, chain);
      }
      assert chain[0] in Elements(chain);
    }
  }

  lemma HeadNotInTail(store: seq<Node>, head: SizeT, chain: seq<nat>)
    requires IsChain(store, head, chain) && chain != []
    ensures chain[0] !in Elements(chain[1..])
  {
    forall j | 0 <= j < |chain[1..]|
      ensures chain[1..][j] != chain[0]
    {
      ChainAcyclic(store, head, chain, 0, j + 1);
    }
  }

  lemma ElementsOfPush(chain: seq<nat>, n: nat)
    ensures Elements([n] + chain) == {n} + Elements(chain)
  {
    var s := [n] + chain;
    forall x: nat
      ensures x in Elements(s) <==> x in {n} + Elements(chain)
    {
      if i :| 0 <= i < |chain| && chain[i] == x {
        assert s[i + 1] == x;
      }
      if i :| 0 <= i < |s| && s[i] == x && i > 0 {
        assert chain[i - 1] == x;
      }
      assert s[0] == n;
    }
  }

  lemma DeallocateKeeps(v: Volume, chain: seq<nat>, n: SizeT)
    requires VolumeOk(v, chain) && CanFree(v, n) && 2 <= n && n in v.marked
    ensures VolumeOk(Deallocate(v, n), [n] + chain)
    ensures forall i :: 0 < i < |v.store| && i != n ==> Deallocate(v, n).store[i] == v.store[i]
  {
    var w := Deallocate(v, n);
    assert n !in Elements(chain);
    assert forall i :: 0 <= i < |chain| ==> chain[i] in Elements(chain);
    ChainFrame(v.store, w.store, v.super.info.freelist, chain);
    assert ([n] + chain)[1..] == chain;
    ElementsOfPush(chain, n);
  }

  ghost predicate CanStamp(v: Volume, n: nat, node: Node) {
    && 1 <= n < |v.store| && n in v.marked
    && WellFormed(node) && node.info.blocksize == v.super.info.blocksize
    && node.info.nodetype != UNALLOCATED_BLOCK
  }

  lemma StampKeeps(v: Volume, chain: seq<nat>, n: nat, node: Node)
    requires VolumeOk(v, chain) && CanStamp(v, n, node)
    ensures VolumeOk(Stamp(v, n, node), chain)
  {
    assert forall i :: 0 <= i < |chain| ==> chain[i] in Elements(chain);
    ChainFrame(v.store, Stamp(v, n, node).store, v.super.info.freelist, chain);
  }

  // ---- a fresh index ------------------------------------------------------------------------

  ghost function FreshChain(from: nat, n: nat): seq<nat>
    requires from <= n
  {
    seq(n - from, i requires 0 <= i < n - from => from + i)
  }

  lemma {:induction false} FreshIsChain(v: Volume, n: SizeT, keysize: SizeT, valuesize: SizeT,
      blocksize: SizeT, marked: set<nat>, from: SizeT)
    requires blocksize >= HEADER && 2 <= from <= n
    requires v == Format(n, keysize, valuesize, blocksize, marked)
    ensures IsChain(v.store, if from == n then 0 else from, FreshChain(from, n))
    decreases n - from
  {
    if from < n {
      FreshIsChain(v, n, keysize, valuesize, blocksize, marked, from + 1);
      assert FreshChain(from, n)[1..] == FreshChain(from + 1, n);
      assert v.store[from] == FreshNode(n, keysize, valuesize, blocksize, from);
    }
  }

  /** The headers of a fresh index: the superblock names root block 1, free block 2 and
      the sizes the index was given; root and free blocks carry the same sizes, free
      blocks name their successor, and the data area of the root is zero. */
  lemma FormatHeaders(n: SizeT, keysize: SizeT, valuesize: SizeT, blocksize: SizeT, marked: set<nat>)
    requires blocksize >= HEADER && 1 <= n
    ensures var v := Format(n, keysize, valuesize, blocksize, marked);
            && |v.store| == n && v.store[0] == v.super
            && v.super == Node(NodeInfo(1, keysize, valuesize, blocksize, 1, 2, 0), [])
            && (n > 1 ==>
                  && v.store[1].info == NodeInfo(2, keysize, valuesize, blocksize, 1, 2, 0)
                  && |v.store[1].data| == blocksize - 28
                  && forall j :: 0 <= j < |v.store[1].data| ==> v.store[1].data[j] == 0)
            && (forall i :: 2 <= i < n ==>
                  v.store[i] == Node(NodeInfo(0, keysize, valuesize, blocksize, 1,
                                              if i + 1 < n then i + 1 else 0, 0), []))
            && v.marked == marked + (if n > 1 then {0, 1} else {0})
  {
    var v := Format(n, keysize, valuesize, blocksize, marked);
    assert forall i :: 0 <= i < n ==> v.store[i] == FreshNode(n, keysize, valuesize, blocksize, i);
  }

  /** Creating an index on a disk of n blocks gives a consistent volume exactly when
      there are at least three blocks and no block but 0 and 1 was marked before: with
      fewer the superblock still names block 2 as free, and stale marks are never
      cleared. */
  lemma FormatIsConsistentIff(n: SizeT, keysize: SizeT, valuesize: SizeT, blocksize: SizeT, marked: set<nat>)
    requires blocksize >= HEADER && 1 <= n
    requires forall x :: x in marked ==> x < n
    ensures (exists chain :: VolumeOk(Format(n, keysize, valuesize, blocksize, marked), chain))
            <==> 3 <= n && marked <= {0, 1}
    ensures 3 <= n && marked <= {0, 1} ==>
              VolumeOk(Format(n, keysize, valuesize, blocksize, marked), FreshChain(2, n))
  {
    var v := Format(n, keysize, valuesize, blocksize, marked);
    forall chain | VolumeOk(v, chain)
      ensures 3 <= n && marked <= {0, 1}
    {
      ConsistentFormat(n, keysize, valuesize, blocksize, marked, chain);
    }
    if 3 <= n && marked <= {0, 1} {
      FreshIsChain(v, n, keysize, valuesize, blocksize, marked, 2);
      FreshElements(n);
      assert VolumeOk(v, FreshChain(2, n));
    }
  }

  lemma ConsistentFormat(n: SizeT, keysize: SizeT, valuesize: SizeT, blocksize: SizeT,
      marked: set<nat>, chain: seq<nat>)
    requires blocksize >= HEADER && 1 <= n
    requires forall x :: x in marked ==> x < n
    requires VolumeOk(Format(n, keysize, valuesize, blocksize, marked), chain)
    ensures 3 <= n && marked <= {0, 1}
  {
    var v := Format(n, keysize, valuesize, blocksize, marked);
    assert 2 <= chain[0] < n;
    FreshIsChain(v, n, keysize, valuesize, blocksize, marked, 2);
    ChainUnique(v.store, 2, chain, FreshChain(2, n));
    FreshElements(n);
    forall x | x in marked
      ensures x in {0, 1}
    {
      assert x in v.marked;
    }
  }

  lemma FreshElements(n: nat)
    requires 2 <= n
    ensures Elements(FreshChain(2, n)) == Bitmap.Range(0, n) - {0, 1}
  {
    forall x: nat
      ensures x in Elements(FreshChain(2, n)) <==> 2 <= x < n
    {
      if 2 <= x < n {
        assert FreshChain(2, n)[x - 2] == x;
      }
    }
  }

  // ---- runs -----------------------------------------------------------------------------------

  datatype AllocOp = Alloc | Write(n: SizeT, node: Node) | Free(n: SizeT)

  datatype AllocReply = AllocReply(rc: ErrorT, n: nat)

  /** What the caller owes: write and free only blocks it was given, write live node
      types, keep the root, and write a block before freeing it. */
  ghost predicate LegalOp(v: Volume, op: AllocOp) {
    match op
    case Alloc => true
    case Write(n, node) => CanStamp(v, n, node)
    case Free(n) => 2 <= n && n in v.marked && CanFree(v, n)
  }

  ghost function Perform(v: Volume, op: AllocOp): (Volume, AllocReply)
    requires CanAllocate(v) && LegalOp(v, op)
  {
    match op
    case Alloc => var g := Allocate(v); (g.volume, AllocReply(g.rc, g.n))
    case Write(n, node) => (Stamp(v, n, node), AllocReply(NoError, n))
    case Free(n) => (Deallocate(v, n), AllocReply(NoError, n))
  }

  /** The reference: a stack of free block numbers. */
  ghost function StackStep(free: seq<nat>, op: AllocOp): (seq<nat>, AllocReply) {
    match op
    case Alloc => if free == [] then (free, AllocReply(NoSpace, 0)) else (free[1..], AllocReply(NoError, free[0]))
    case Write(n, _) => (free, AllocReply(NoError, n))
    case Free(n) => ([n] + free, AllocReply(NoError, n))
  }

  lemma PerformKeeps(v: Volume, chain: seq<nat>, op: AllocOp)
    requires VolumeOk(v, chain) && LegalOp(v, op)
    ensures CanAllocate(v)
    ensures VolumeOk(Perform(v, op).0, StackStep(chain, op).0)
    ensures Perform(v, op).1 == StackStep(chain, op).1
    ensures |Perform(v, op).0.store| == |v.store|
  {
    hide VolumeOk, Allocate, Deallocate, Stamp;
    AllocateKeeps(v, chain);
    match op {
      case Alloc => AllocateShape(v);
      case Write(n, node) => StampKeeps(v, chain, n, node); StampShape(v, n, node);
      case Free(n) => DeallocateKeeps(v, chain, n); DeallocateShape(v, n);
    }
  }

  /** What one call leaves alone: of the superblock everything but the free head, and
      every block but block 0 and the one the call names. A freed block keeps its
      header but for the type and the link. */
  lemma PerformFrame(v: Volume, op: AllocOp)
    requires CanAllocate(v) && LegalOp(v, op)
    ensures var w := Perform(v, op).0;
            && w.super == v.super.(info := v.super.info.(freelist := w.super.info.freelist))
            && |w.store| == |v.store|
            && (forall i :: 0 < i < |v.store| && (op.Alloc? || i != op.n) ==> w.store[i] == v.store[i])
            && (op.Write? ==> w.super == v.super && w.store[op.n] == op.node && w.marked == v.marked)
            && (op.Free? ==>
                  && w.store[op.n] == Node(v.store[op.n].info.(nodetype := 0, freelist := v.super.info.freelist), [])
                  && w.marked == v.marked - {op.n})
  {
  }

  lemma AllocateShape(v: Volume)
    requires CanAllocate(v)
    ensures |Allocate(v).volume.store| == |v.store|
  {
  }

  lemma StampShape(v: Volume, n: nat, node: Node)
    requires n < |v.store|
    ensures |Stamp(v, n, node).store| == |v.store|
  {
  }

  lemma DeallocateShape(v: Volume, n: SizeT)
    requires CanFree(v, n)
    ensures |Deallocate(v, n).store| == |v.store|
  {
  }

  /** Every call of the run is legal in the state it is made in. */
  ghost predicate LegalRun(v: Volume, chain: seq<nat>, ops: seq<AllocOp>)
    requires VolumeOk(v, chain)
    decreases |ops|
  {
    ops == [] ||
    (LegalOp(v, ops[0]) &&
     (PerformKeeps(v, chain, ops[0]);
      LegalRun(Perform(v, ops[0]).0, StackStep(chain, ops[0]).0, ops[1..])))
  }

  ghost function VolumeAfter(v: Volume, chain: seq<nat>, ops: seq<AllocOp>): Volume
    requires VolumeOk(v, chain) && LegalRun(v, chain, ops)
    decreases |ops|
  {
    if ops == [] then v
    else
      PerformKeeps(v, chain, ops[0]);
      VolumeAfter(Perform(v, ops[0]).0, StackStep(chain, ops[0]).0, ops[1..])
  }

  ghost function AllocReplies(v: Volume, chain: seq<nat>, ops: seq<AllocOp>): seq<AllocReply>
    requires VolumeOk(v, chain) && LegalRun(v, chain, ops)
    decreases |ops|
  {
    if ops == [] then []
    else
      PerformKeeps(v, chain, ops[0]);
      [Perform(v, ops[0]).1]
      + AllocReplies(Perform(v, ops[0]).0, StackStep(chain, ops[0]).0, ops[1..])
  }

  ghost function StackAfter(free: seq<nat>, ops: seq<AllocOp>): seq<nat>
    decreases |ops|
  {
    if ops == [] then free else StackAfter(StackStep(free, ops[0]).0, ops[1..])
  }

  ghost function StackReplies(free: seq<nat>, ops: seq<AllocOp>): seq<AllocReply>
    decreases |ops|
  {
    if ops == [] then []
    else [StackStep(free, ops[0]).1] + StackReplies(StackStep(free, ops[0]).0, ops[1..])
  }

  /** The main theorem: on every legal run the allocator answers as a stack of block
      numbers does, and afterwards the chain on the volume is that stack, with every
      invariant of the volume intact. */
  lemma {:induction false} AllocatorIsStack(v: Volume, chain: seq<nat>, ops: seq<AllocOp>)
    requires VolumeOk(v, chain) && LegalRun(v, chain, ops)
    ensures AllocReplies(v, chain, ops) == StackReplies(chain, ops)
    ensures VolumeOk(VolumeAfter(v, chain, ops), StackAfter(chain, ops))
    ensures |VolumeAfter(v, chain, ops).store| == |v.store|
    decreases |ops|
  {
    hide VolumeOk, Perform, StackStep, LegalOp;
    if ops != [] {
      PerformKeeps(v, chain, ops[0]);
      AllocatorIsStack(Perform(v, ops[0]).0, StackStep(chain, ops[0]).0, ops[1..]);
    }
  }

  ghost function HeadOf(free: seq<nat>): nat {
    if free == [] then 0 else free[0]
  }

  /** Through every legal run the superblock keeps the root, the sizes and everything
      else but the free head, which is the top of the stack, in memory and in block 0. */
  lemma {:induction false} RunKeepsSuper(v: Volume, chain: seq<nat>, ops: seq<AllocOp>)
    requires VolumeOk(v, chain) && LegalRun(v, chain, ops)
    ensures var w := VolumeAfter(v, chain, ops);
            && |w.store| == |v.store| > 0
            && w.super.info.freelist == HeadOf(StackAfter(chain, ops))
            && w.super == v.super.(info := v.super.info.(freelist := w.super.info.freelist))
            && w.store[0] == w.super
    decreases |ops|
  {
    hide VolumeOk, Perform, StackStep, LegalOp;
    HeadIsFirst(v, chain);
    if ops != [] {
      PerformKeeps(v, chain, ops[0]);
      PerformFrame(v, ops[0]);
      RunKeepsSuper(Perform(v, ops[0]).0, StackStep(chain, ops[0]).0, ops[1..]);
    }
  }

  lemma HeadIsFirst(v: Volume, chain: seq<nat>)
    requires VolumeOk(v, chain)
    ensures |v.store| >= 2 && v.store[0] == v.super
    ensures v.super.info.freelist == HeadOf(chain)
  {
  }

  /** ... and every block that no call of the run writes or frees keeps its node. */
  lemma {:induction false} RunKeepsBlock(v: Volume, chain: seq<nat>, ops: seq<AllocOp>, n: nat)
    requires VolumeOk(v, chain) && LegalRun(v, chain, ops) && 0 < n < |v.store|
    requires forall i :: 0 <= i < |ops| ==> ops[i].Alloc? || ops[i].n != n
    ensures |VolumeAfter(v, chain, ops).store| == |v.store|
    ensures VolumeAfter(v, chain, ops).store[n] == v.store[n]
    decreases |ops|
  {
    hide VolumeOk, Perform, StackStep, LegalOp;
    if ops != [] {
      PerformKeeps(v, chain, ops[0]);
      PerformFrame(v, ops[0]);
      assert forall i :: 0 <= i < |ops[1..]| ==> ops[1..][i] == ops[i + 1];
      RunKeepsBlock(Perform(v, ops[0]).0, StackStep(chain, ops[0]).0, ops[1..], n);
    }
  }

  lemma {:induction false} StackKeepsLive(free: seq<nat>, ops: seq<AllocOp>, n: nat)
    requires n !in free
    requires forall i :: 0 <= i < |ops| ==> ops[i].Free? ==> ops[i].n != n
    ensures n !in StackAfter(free, ops)
    ensures |StackReplies(free, ops)| == |ops|
    ensures forall i :: 0 <= i < |ops| && ops[i].Alloc? && StackReplies(free, ops)[i].rc == NoError ==>
              StackReplies(free, ops)[i].n != n
    ensures forall i :: 0 <= i < |ops| && ops[i].Alloc? && StackReplies(free, ops)[i].rc != NoError ==>
              StackReplies(free, ops)[i] == AllocReply(NoSpace, 0)
    decreases |ops|
  {
    if ops != [] {
      var next := StackStep(free, ops[0]).0;
      StackKeepsLive(next, ops[1..], n);
      forall i | 0 <= i < |ops| && ops[i].Alloc?
        ensures var r := StackReplies(free, ops)[i];
                if r.rc == NoError then r.n != n else r == AllocReply(NoSpace, 0)
      {
        if i > 0 {
          assert ops[1..][i - 1] == ops[i];
        }
      }
    }
  }

  /** On every legal run, a block that is marked as allocated and not freed by the run
      is never handed out by it, and is still marked at the end. */
  lemma LiveIsNotHandedOut(v: Volume, chain: seq<nat>, ops: seq<AllocOp>, n: nat)
    requires VolumeOk(v, chain) && LegalRun(v, chain, ops)
    requires n in v.marked
    requires forall i :: 0 <= i < |ops| ==> ops[i].Free? ==> ops[i].n != n
    ensures |AllocReplies(v, chain, ops)| == |ops|
    ensures forall i :: 0 <= i < |ops| && ops[i].Alloc? && AllocReplies(v, chain, ops)[i].rc == NoError ==>
              AllocReplies(v, chain, ops)[i].n != n
    ensures forall i :: 0 <= i < |ops| && ops[i].Alloc? && AllocReplies(v, chain, ops)[i].rc != NoError ==>
              AllocReplies(v, chain, ops)[i] == AllocReply(NoSpace, 0)
    ensures n in VolumeAfter(v, chain, ops).marked
  {
    hide VolumeAfter, AllocReplies, LegalRun, StackReplies, StackAfter;
    AllocatorIsStack(v, chain, ops);
    MarkedIffOffChain(v, chain, n);
    StackKeepsLive(chain, ops, n);
    MarkedIffOffChain(VolumeAfter(v, chain, ops), StackAfter(chain, ops), n);
  }

  lemma MarkedIffOffChain(v: Volume, chain: seq<nat>, n: nat)
    requires VolumeOk(v, chain)
    ensures n in v.marked <==> n < |v.store| && n !in chain
  {
    if n in chain {
      assert exists i :: 0 <= i < |chain| && chain[i] == n;
    }
  }

  /** A freed block is the next one returned, and the two calls together put back the
      chain and the marks. */
  lemma FreedIsNext(v: Volume, chain: seq<nat>, n: SizeT)
    requires VolumeOk(v, chain) && LegalOp(v, Free(n))
    ensures var w := Deallocate(v, n);
            && CanAllocate(w)
            && Allocate(w).rc == NoError && Allocate(w).n == n
            && VolumeOk(Allocate(w).volume, chain)
            && Allocate(w).volume.marked == v.marked
            && Allocate(w).volume.super == v.super
  {
    DeallocateKeeps(v, chain, n);
    AllocateKeeps(Deallocate(v, n), [n] + chain);
    assert ([n] + chain)[1..] == chain;
    Conservation(v, chain);
    Conservation(Allocate(Deallocate(v, n)).volume, chain);
  }

  /** Allocate, write and free restores the chain, the marks and the superblock. */
  lemma RoundTripRestoresChain(v: Volume, chain: seq<nat>, node: Node)
    requires VolumeOk(v, chain) && chain != []
    requires WellFormed(node) && node.info.blocksize == v.super.info.blocksize
    requires node.info.nodetype != UNALLOCATED_BLOCK
    ensures CanAllocate(v)
    ensures var g := Allocate(v);
            && LegalOp(g.volume, Write(g.n, node))
            && g.n < WORD
            && var w := Stamp(g.volume, g.n, node);
            && LegalOp(w, Free(g.n))
            && VolumeOk(Deallocate(w, g.n), chain)
            && Deallocate(w, g.n).marked == v.marked
            && Deallocate(w, g.n).super == v.super
  {
    AllocateKeeps(v, chain);
    var g := Allocate(v);
    StampKeeps(g.volume, chain[1..], g.n, node);
    var w := Stamp(g.volume, g.n, node);
    DeallocateKeeps(w, chain[1..], g.n);
    assert [g.n] + chain[1..] == chain;
    Conservation(v, chain);
    Conservation(Deallocate(w, g.n), chain);
  }

  /** Successive allocations return the chain in order; the one after the last free
      block reports no space and changes nothing. */
  lemma {:induction false} AllocateAll(v: Volume, chain: seq<nat>, k: nat)
    requires VolumeOk(v, chain) && k <= |chain|
    ensures LegalRun(v, chain, seq(k, _ => Alloc))
    ensures AllocReplies(v, chain, seq(k, _ => Alloc))
         == seq(k, i requires 0 <= i < k => AllocReply(NoError, chain[i]))
    ensures VolumeOk(VolumeAfter(v, chain, seq(k, _ => Alloc)), chain[k..])
    ensures k == |chain| ==>
              var w := VolumeAfter(v, chain, seq(k, _ => Alloc));
              Allocate(w) == Grant(w, NoSpace, 0)
    decreases k
  {
    hide VolumeOk, Allocate;
    var ops := seq(k, _ => Alloc);
    if k == 0 {
      assert chain[0..] == chain;
      AllocateKeeps(v, chain);
    } else {
      AllocateKeeps(v, chain);
      PerformKeeps(v, chain, Alloc);
      var w := Perform(v, Alloc).0;
      AllocateAll(w, chain[1..], k - 1);
      assert ops[1..] == seq(k - 1, _ => Alloc);
      assert chain[1..][k - 1..] == chain[k..];
    }
  }

  /** A fresh index of n blocks gives exactly n - 2 allocations, blocks 2, 3, ... in
      order, and then reports that there is no space. */
  lemma FreshIndexCapacity(n: SizeT, keysize: SizeT, valuesize: SizeT, blocksize: SizeT)
    requires blocksize >= HEADER && 3 <= n
    ensures var v := Format(n, keysize, valuesize, blocksize, {});
            var chain := FreshChain(2, n);
            var ops := seq(n - 2, _ => Alloc);
            && VolumeOk(v, chain) && LegalRun(v, chain, ops)
            && AllocReplies(v, chain, ops) == seq(n - 2, i requires 0 <= i < n - 2 => AllocReply(NoError, i + 2))
            && var w := VolumeAfter(v, chain, ops);
            && CanAllocate(w) && Allocate(w) == Grant(w, NoSpace, 0)
  {
    hide Allocate, Format;
    FormatIsConsistentIff(n, keysize, valuesize, blocksize, {});
    var v := Format(n, keysize, valuesize, blocksize, {});
    AllocateAll(v, FreshChain(2, n), n - 2);
    AllocateKeeps(VolumeAfter(v, FreshChain(2, n), seq(n - 2, _ => Alloc)), FreshChain(2, n)[n - 2..]);
  }
}
