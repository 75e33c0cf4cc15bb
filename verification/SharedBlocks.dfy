/** Which trees use a block twice. A tree is read off the stored pointers, and nothing
    in the format keeps two pointers from naming the same block. */
module SharedBlocks {
  import opened Base
  import opened NodeLayout
  import opened TreeModel

  // ---- subtrees -----------------------------------------------------------------------

  /** The subtrees of t, itself first, in the order a traversal meets them. */
  ghost function Subtrees(t: Tree): seq<Tree>
    decreases t, 1
  {
    [t] + (if t.Inner? then SubtreesAll(t.kids) else [])
  }

  ghost function SubtreesAll(kids: seq<Tree>): seq<Tree>
    decreases kids, 0
  {
    if kids == [] then [] else Subtrees(kids[0]) + SubtreesAll(kids[1..])
  }

  /** The traversal reads the blocks of the subtrees, one by one. */
  lemma {:induction false} PreorderAt(t: Tree)
    ensures |Preorder(t)| == |Subtrees(t)|
    ensures forall i :: 0 <= i < |Subtrees(t)| ==> Preorder(t)[i] == Subtrees(t)[i].addr
    decreases t, 1
  {
    if t.Inner? {
      PreorderAllAt(t.kids);
    }
  }

  lemma {:induction false} PreorderAllAt(kids: seq<Tree>)
    ensures |PreorderAll(kids)| == |SubtreesAll(kids)|
    ensures forall i :: 0 <= i < |SubtreesAll(kids)| ==>
              PreorderAll(kids)[i] == SubtreesAll(kids)[i].addr
    decreases kids, 0
  {
    if kids != [] {
      PreorderAt(kids[0]);
      PreorderAllAt(kids[1..]);
    }
  }

  lemma {:induction false} SubtreesAllMember(kids: seq<Tree>, s: Tree)
    ensures s in SubtreesAll(kids) <==> exists i :: 0 <= i < |kids| && s in Subtrees(kids[i])
    decreases |kids|
  {
    if kids != [] {
      SubtreesAllMember(kids[1..], s);
      if i :| 0 <= i < |kids[1..]| && s in Subtrees(kids[1..][i]) {
        assert s in Subtrees(kids[i + 1]);
      }
      if i :| 0 < i < |kids| && s in Subtrees(kids[i]) {
        assert s in Subtrees(kids[1..][i - 1]);
      }
    }
  }

  /** A proper subtree has fewer subtrees. */
  lemma {:induction false} SubtreeIsSmaller(t: Tree, s: Tree)
    requires s in Subtrees(t)
    ensures |Subtrees(s)| <= |Subtrees(t)|
    ensures t.Inner? && s in SubtreesAll(t.kids) ==> |Subtrees(s)| < |Subtrees(t)|
    decreases t
  {
    if t.Inner? && s in SubtreesAll(t.kids) {
      SubtreesAllMember(t.kids, s);
      var i :| 0 <= i < |t.kids| && s in Subtrees(t.kids[i]);
      SubtreeIsSmaller(t.kids[i], s);
      ChildHasFewer(t.kids, i);
    }
  }

  lemma {:induction false} ChildHasFewer(kids: seq<Tree>, i: nat)
    requires i < |kids|
    ensures |Subtrees(kids[i])| <= |SubtreesAll(kids)|
    decreases i
  {
    if i > 0 {
      ChildHasFewer(kids[1..], i - 1);
    }
  }

  lemma {:induction false} SubtreeIsSound(store: seq<Node>, t: Tree, sz: Sizes, s: Tree)
    requires s in Subtrees(t)
    ensures Stored(store, t, sz) ==> Stored(store, s, sz)
    ensures WellOrdered(t) ==> WellOrdered(s)
    ensures forall p :: p in Entries(s) ==> p in Entries(t)
    decreases t
  {
    if s != t {
      SubtreesAllMember(t.kids, s);
      var i :| 0 <= i < |t.kids| && s in Subtrees(t.kids[i]);
      SubtreeIsSound(store, t.kids[i], sz, s);
      forall p | p in Entries(s)
        ensures p in Entries(t)
      {
        EntriesAllMember(t.kids, p);
      }
    }
  }

  // ---- the volume determines the tree ----------------------------------------------------

  /** Two trees stored under the same address are equal. */
  lemma {:induction false} StoredUnique(store: seq<Node>, s: Tree, t: Tree, sz: Sizes)
    requires Stored(store, s, sz) && Stored(store, t, sz) && s.addr == t.addr
    ensures s == t
    decreases s
  {
    if s.Inner? {
      assert t.Inner? && |t.kids| == |s.kids|;
      forall i | 0 <= i < |s.kids|
        ensures s.kids[i] == t.kids[i]
      {
        StoredUnique(store, s.kids[i], t.kids[i], sz);
      }
    }
  }

  /** A lookup never reads a block twice: no tree contains itself. */
  lemma {:induction false} PathDistinct(store: seq<Node>, t: Tree, sz: Sizes, key: Key)
    requires Stored(store, t, sz) && Shaped(t)
    ensures Distinct(Path(t, key))
    decreases t
  {
    hide Stored, Preorder;
    if t.Inner? && t.seps != [] {
      var kid := t.kids[Child(t.seps, key)];
      KidIsStored(store, t, sz, Child(t.seps, key));
      PathDistinct(store, kid, sz, key);
      PathInTree(kid, key);
      PreorderAt(kid);
      if t.addr in Preorder(kid) {
        var j :| 0 <= j < |Preorder(kid)| && Preorder(kid)[j] == t.addr;
        var s := Subtrees(kid)[j];
        SubtreeIsSound(store, kid, sz, s);
        StoredUnique(store, s, t, sz);
        SubtreesAllMember(t.kids, s);
        SubtreeIsSmaller(t, s);
      }
      PathUnfold(t, key);
      forall i, j | 0 <= i < j < |Path(t, key)|
        ensures Path(t, key)[i] != Path(t, key)[j]
      {
        assert Path(t, key)[j] == Path(kid, key)[j - 1];
        if i > 0 {
          assert Path(t, key)[i] == Path(kid, key)[i - 1];
        }
      }
    }
  }

  lemma KidIsStored(store: seq<Node>, t: Tree, sz: Sizes, i: nat)
    requires Stored(store, t, sz) && t.Inner? && i < |t.kids|
    ensures Stored(store, t.kids[i], sz)
  {
  }

  // ---- the traversal as a scan ------------------------------------------------------------

  /** A block the traversal cannot get past. */
  ghost predicate Foreign(t: Tree) {
    t.Alien? || t.Beyond?
  }

  /** Reading a list of nodes one after the other. */
  ghost function Scan(nodes: seq<Tree>): Showing {
    if nodes == [] then Showing([], [], NoError)
    else if nodes[0].Alien? then Showing([], [nodes[0].addr], Insane)
    else if nodes[0].Beyond? then Showing([], [nodes[0].addr], NoSpace)
    else
      var r := Scan(nodes[1..]);
      Showing((if nodes[0].Leaf? then nodes[0].pairs else []) + r.pairs, [nodes[0].addr] + r.addrs, r.rc)
  }

  lemma {:induction false} ScanConcat(a: seq<Tree>, b: seq<Tree>)
    ensures var r, q := Scan(a), Scan(b);
            Scan(a + b) ==
            if r.rc != NoError then r else Showing(r.pairs + q.pairs, r.addrs + q.addrs, q.rc)
    decreases |a|
  {
    if a == [] {
      assert a + b == b;
    } else {
      assert (a + b)[1..] == a[1..] + b;
      ScanConcat(a[1..], b);
    }
  }

  /** The recursive traversal, of any tree, is the scan of its subtrees in order. */
  lemma {:induction false} ShowIsScan(t: Tree)
    ensures Show(t) == Scan(Subtrees(t))
    decreases t, 1
  {
    if t.Inner? {
      ShowAllIsScan(t.kids);
      assert Subtrees(t)[1..] == SubtreesAll(t.kids);
    } else {
      assert Subtrees(t)[1..] == [];
    }
  }

  lemma {:induction false} ShowAllIsScan(kids: seq<Tree>)
    ensures ShowAll(kids) == Scan(SubtreesAll(kids))
    decreases kids, 0
  {
    if kids != [] {
      ShowIsScan(kids[0]);
      ShowAllIsScan(kids[1..]);
      ScanConcat(Subtrees(kids[0]), SubtreesAll(kids[1..]));
    }
  }

  lemma {:induction false} ScanStopsAtForeign(nodes: seq<Tree>)
    ensures var k := |Scan(nodes).addrs|;
            && k <= |nodes|
            && (forall i :: 0 <= i < k ==> Scan(nodes).addrs[i] == nodes[i].addr)
            && (forall i :: 0 <= i < k - 1 ==> !Foreign(nodes[i]))
            && (Scan(nodes).rc == NoError ==> k == |nodes| && (k > 0 ==> !Foreign(nodes[k - 1])))
            && (Scan(nodes).rc != NoError ==>
                  k > 0 && Foreign(nodes[k - 1])
                  && Scan(nodes).rc == if nodes[k - 1].Alien? then Insane else NoSpace)
    decreases |nodes|
  {
    if nodes != [] && !Foreign(nodes[0]) {
      ScanStopsAtForeign(nodes[1..]);
      assert forall i :: 0 < i < |nodes| ==> nodes[i] == nodes[1..][i - 1];
    }
  }

  /** A traversal of any tree reads its blocks in preorder up to and including the first
      that is no tree node or lies past the end, whose error it returns; it succeeds if
      and only if there is no such block. */
  lemma ShowStopsAtForeign(t: Tree)
    ensures |Subtrees(t)| == |Preorder(t)|
    ensures var r := Show(t);
            var k := |r.addrs|;
            && 0 < k <= |Preorder(t)| && r.addrs == Preorder(t)[..k]
            && (forall i :: 0 <= i < k - 1 ==> !Foreign(Subtrees(t)[i]))
            && (r.rc == NoError <==> forall s :: s in Subtrees(t) ==> !Foreign(s))
            && (r.rc != NoError ==>
                  Foreign(Subtrees(t)[k - 1])
                  && r.rc == if Subtrees(t)[k - 1].Alien? then Insane else NoSpace)
            && (r.rc == NoError ==> k == |Preorder(t)|)
  {
    hide Show, Scan, Subtrees, Preorder;
    ShowIsScan(t);
    ScanStopsAtForeign(Subtrees(t));
    PreorderAt(t);
    ShowIsNotEmpty(t);
  }

  lemma ShowIsNotEmpty(t: Tree)
    ensures Show(t).addrs != []
  {
  }

  // ---- blocks met twice ----------------------------------------------------------------------

  /** A subtree below two different children has no entries: a key in it would lie on
      both sides of a separator. */
  lemma SharedChildIsEmpty(t: Tree, i: nat, k: nat, s: Tree)
    requires WellOrdered(t) && t.Inner? && i < k < |t.kids|
    requires s in Subtrees(t.kids[i]) && s in Subtrees(t.kids[k])
    ensures Entries(s) == []
  {
    SubtreeEntries(t.kids[i], s);
    SubtreeEntries(t.kids[k], s);
    if Entries(s) != [] {
      var p := Entries(s)[0];
      assert p in Entries(t.kids[i]) && p in Entries(t.kids[k]);
      assert Between(t.seps, i, p.0) && Between(t.seps, k, p.0);
      OtherChildrenLackKey(t.seps, p.0, i);
      OtherChildrenLackKey(t.seps, p.0, k);
    }
  }

  lemma SubtreeEntries(t: Tree, s: Tree)
    requires s in Subtrees(t)
    ensures forall p :: p in Entries(s) ==> p in Entries(t)
  {
    SubtreeIsSound([], t, Sizes(0, 0, 0), s);
  }

  lemma SubtreesUnfold(t: Tree, i: nat)
    requires i < |Subtrees(t)|
    ensures Subtrees(t)[0] == t
    ensures i > 0 ==> t.Inner? && i - 1 < |SubtreesAll(t.kids)|
                      && Subtrees(t)[i] == SubtreesAll(t.kids)[i - 1]
                      && Subtrees(t)[i] in SubtreesAll(t.kids)
    ensures t.Inner? ==> |Subtrees(t)| == 1 + |SubtreesAll(t.kids)|
  {
  }

  lemma SubtreesAllUnfold(kids: seq<Tree>, m: nat)
    requires m <= |kids|
    ensures m < |kids| ==>
              SubtreesAll(kids[m..]) == Subtrees(kids[m]) + SubtreesAll(kids[m + 1..])
    ensures m == |kids| ==> SubtreesAll(kids[m..]) == []
  {
    if m < |kids| {
      assert kids[m..][0] == kids[m] && kids[m..][1..] == kids[m + 1..];
    }
  }

  lemma ChildIsSound(store: seq<Node>, t: Tree, sz: Sizes, m: nat)
    requires Stored(store, t, sz) && WellOrdered(t) && t.Inner? && m < |t.kids|
    ensures Stored(store, t.kids[m], sz) && WellOrdered(t.kids[m])
  {
  }

  /** A block the traversal meets twice has no entries below it. */
  lemma {:induction false} RepeatedBlockIsEmpty(store: seq<Node>, t: Tree, sz: Sizes, i: nat, j: nat)
    requires Stored(store, t, sz) && WellOrdered(t)
    requires i < j < |Subtrees(t)| && Subtrees(t)[i].addr == Subtrees(t)[j].addr
    ensures Subtrees(t)[i] == Subtrees(t)[j]
    ensures Entries(Subtrees(t)[i]) == []
    decreases t, 1, 0
  {
    hide Stored, WellOrdered, Entries, Subtrees, SubtreesAll;
    var a, b := Subtrees(t)[i], Subtrees(t)[j];
    SubtreeIsSound(store, t, sz, a);
    SubtreeIsSound(store, t, sz, b);
    StoredUnique(store, a, b, sz);
    SubtreesUnfold(t, j);
    if i == 0 {
      SubtreeIsSmaller(t, b);
    } else {
      SubtreesUnfold(t, i);
      assert t.kids[0..] == t.kids;
      RepeatedBelow(store, t, sz, 0, i - 1, j - 1);
    }
  }

  /** ... at places i and j below children m, m + 1, ... */
  lemma {:induction false} RepeatedBelow(store: seq<Node>, t: Tree, sz: Sizes, m: nat, i: nat, j: nat)
    requires Stored(store, t, sz) && WellOrdered(t) && t.Inner? && m <= |t.kids|
    requires i < j < |SubtreesAll(t.kids[m..])|
    requires SubtreesAll(t.kids[m..])[i] == SubtreesAll(t.kids[m..])[j]
    ensures Entries(SubtreesAll(t.kids[m..])[i]) == []
    decreases t, 0, |t.kids| - m
  {
    hide Stored, WellOrdered, Entries, Subtrees, SubtreesAll;
    SubtreesAllUnfold(t.kids, m);
    var here, later := Subtrees(t.kids[m]), SubtreesAll(t.kids[m + 1..]);
    ChildIsSound(store, t, sz, m);
    if j < |here| {
      RepeatedBlockIsEmpty(store, t.kids[m], sz, i, j);
    } else if i >= |here| {
      RepeatedBelow(store, t, sz, m + 1, i - |here|, j - |here|);
    } else {
      var s := here[i];
      assert s == later[j - |here|];
      SubtreesAllMember(t.kids[m + 1..], s);
      var k :| 0 <= k < |t.kids[m + 1..]| && s in Subtrees(t.kids[m + 1..][k]);
      assert t.kids[m + 1..][k] == t.kids[m + 1 + k];
      SharedChildIsEmpty(t, m, m + 1 + k, s);
    }
  }

  /** The nodes without entries below them lie in different blocks, wherever the
      traversal meets them. */
  ghost predicate EmptyNodesApart(t: Tree) {
    forall i, j :: 0 <= i < j < |Subtrees(t)|
                   && Entries(Subtrees(t)[i]) == [] && Entries(Subtrees(t)[j]) == [] ==>
                   Subtrees(t)[i].addr != Subtrees(t)[j].addr
  }

  /** The traversal of a stored, well-ordered tree reads each block once if and only if
      its empty nodes lie in different blocks. */
  lemma PreorderDistinctIff(store: seq<Node>, t: Tree, sz: Sizes)
    requires Stored(store, t, sz) && WellOrdered(t)
    ensures Distinct(Preorder(t)) <==> EmptyNodesApart(t)
  {
    PreorderAt(t);
    if EmptyNodesApart(t) {
      forall i, j | 0 <= i < j < |Preorder(t)|
        ensures Preorder(t)[i] != Preorder(t)[j]
      {
        if Subtrees(t)[i].addr == Subtrees(t)[j].addr {
          RepeatedBlockIsEmpty(store, t, sz, i, j);
        }
      }
    } else {
      var i, j :| 0 <= i < j < |Subtrees(t)| && Subtrees(t)[i].addr == Subtrees(t)[j].addr;
      assert Preorder(t)[i] == Preorder(t)[j];
    }
  }

  /** Leaves hold pairs and interior nodes hold separators. */
  ghost predicate Filled(t: Tree)
    decreases t
  {
    match t
    case Leaf(_, pairs) => pairs != []
    case Inner(_, seps, kids) => seps != [] && forall i :: 0 <= i < |kids| ==> Filled(kids[i])
    case _ => true
  }

  /** ... everywhere below the root. */
  ghost predicate FilledBelow(t: Tree) {
    t.Inner? ==> forall i :: 0 <= i < |t.kids| ==> Filled(t.kids[i])
  }

  lemma {:induction false} FilledHasEntries(t: Tree, s: Tree)
    requires Filled(t) && WellOrdered(t) && s in Subtrees(t)
    ensures Entries(s) != []
    decreases t
  {
    if s != t {
      SubtreesAllMember(t.kids, s);
      var i :| 0 <= i < |t.kids| && s in Subtrees(t.kids[i]);
      FilledHasEntries(t.kids[i], s);
    } else if t.Inner? {
      FilledHasEntries(t.kids[0], t.kids[0]);
      EntriesAllMember(t.kids, Entries(t.kids[0])[0]);
    }
  }

  /** With no empty node below the root, every block is read once. */
  lemma PreorderDistinct(store: seq<Node>, t: Tree, sz: Sizes)
    requires Stored(store, t, sz) && WellOrdered(t) && FilledBelow(t)
    ensures Distinct(Preorder(t))
  {
    PreorderDistinctIff(store, t, sz);
    forall j | 0 < j < |Subtrees(t)|
      ensures Entries(Subtrees(t)[j]) != []
    {
      var s := Subtrees(t)[j];
      assert s == SubtreesAll(t.kids)[j - 1];
      SubtreesAllMember(t.kids, s);
      var i :| 0 <= i < |t.kids| && s in Subtrees(t.kids[i]);
      FilledHasEntries(t.kids[i], s);
    }
  }

  /** The condition is needed: one separator with the same empty leaf on both sides is
      a well-ordered tree, and every volume that holds its two blocks stores it. */
  lemma SharedLeafIsReadTwice(store: seq<Node>, k: Key, root: nat, leaf: nat, sz: Sizes)
    requires root < |store| && leaf < |store|
    requires NodeHolds(store[leaf], Leaf(leaf, []), sz)
    requires NodeHolds(store[root], SharedLeaf(k, root, leaf), sz)
    ensures var t := SharedLeaf(k, root, leaf);
            && Stored(store, t, sz) && WellOrdered(t)
            && Preorder(t) == [root, leaf, leaf]
  {
    hide NodeHolds, Pairs;
    var l := Leaf(leaf, []);
    assert Entries(l) == [];
    assert [l, l][1..] == [l] && [l][1..] == [];
    assert PreorderAll([l]) == [leaf];
    assert PreorderAll([l, l]) == [leaf, leaf];
  }

  ghost function SharedLeaf(k: Key, root: nat, leaf: nat): Tree {
    Inner(root, [k], [Leaf(leaf, []), Leaf(leaf, [])])
  }

  /** Such volumes exist for every key and every block size with room for it. */
  lemma SharedLeafExists(k: Key, root: nat, leaf: SizeT, vsize: SizeT, bsize: SizeT)
    requires root != leaf && HEADER + 2 * PTR_SIZE + |k| <= bsize
    ensures exists store: seq<Node> ::
              Stored(store, SharedLeaf(k, root, leaf), Sizes(|k|, vsize, bsize))
  {
    hide Keys, Ptrs, Pairs, WriteCell;
    var zeros := seq(bsize - HEADER, _ => 0 as Byte);
    var empty := Node(NodeInfo(LEAF_NODE, |k|, vsize, bsize, 1, 0, 0), zeros);
    var n0 := Node(NodeInfo(INTERIOR_NODE, |k|, vsize, bsize, 1, 0, 1), zeros);
    SetKeyEffect(n0, 0, k);
    var n1 := WriteCell(n0, KeyCell(0), k);
    SetPtrEffect(n1, 0, leaf);
    var n2 := WriteCell(n1, PtrCell(0), Enc32(leaf));
    SetPtrEffect(n2, 1, leaf);
    var n3 := WriteCell(n2, PtrCell(1), Enc32(leaf));
    assert Keys(n3) == [k] && Ptrs(n3) == [leaf, leaf];
    assert Pairs(empty) == [];
    var store := seq(root + leaf + 1, i => if i == leaf then empty else n3);
    assert store[leaf] == empty && store[root] == n3;
    var sz := Sizes(|k|, vsize, bsize);
    assert NodeHolds(empty, Leaf(leaf, []), sz);
    assert NodeHolds(n3, SharedLeaf(k, root, leaf), sz);
    SharedLeafIsReadTwice(store, k, root, leaf, sz);
  }
}
