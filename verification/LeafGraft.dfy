/** One leaf of a tree replaced, in the tree and on the volume: what a pair placed in
    the leaf at the end of a search path means for the whole index. */
module LeafGraft {
  import opened Base
  import opened NodeLayout
  import opened TreeModel
  import opened SharedBlocks

  /** The node a lookup ends at. */
  ghost function Target(t: Tree, key: Key): (s: Tree)
    requires Shaped(t)
    ensures Shaped(s) && !(s.Inner? && s.seps != [])
    decreases t
  {
    if t.Inner? && t.seps != [] then Target(t.kids[Child(t.seps, key)], key) else t
  }

  /** The tree with the pairs of that leaf replaced. */
  ghost function Graft(t: Tree, key: Key, pairs: seq<Pair>): (r: Tree)
    requires Shaped(t)
    ensures r.addr == t.addr
    decreases t
  {
    match t
    case Leaf(a, _) => Leaf(a, pairs)
    case Inner(a, seps, kids) =>
      if seps == [] then t
      else
        var c := Child(seps, key);
        Inner(a, seps, kids[c := Graft(kids[c], key, pairs)])
    case _ => t
  }

  /** The scan goes to the child whose separators enclose the key. */
  lemma ChildEncloses(seps: seq<Key>, key: Key)
    ensures Between(seps, Child(seps, key), key)
  {
    var c := Child(seps, key);
    if 0 < c {
      LessTotal(seps[c - 1], key);
    }
  }

  lemma {:induction false} TargetIsSubtree(t: Tree, key: Key)
    requires Shaped(t)
    ensures Target(t, key) in Subtrees(t)
    decreases t
  {
    if t.Inner? && t.seps != [] {
      var c := Child(t.seps, key);
      TargetIsSubtree(t.kids[c], key);
      SubtreesAllMember(t.kids, Target(t, key));
    }
  }

  // ---- in the tree ----------------------------------------------------------------------

  lemma PlacedMember(pairs: seq<Pair>, offset: nat, p: Pair)
    requires offset <= |pairs|
    ensures forall q :: q in Placed(pairs, offset, p) <==> q == p || q in pairs
  {
    assert pairs == pairs[..offset] + pairs[offset..];
  }

  /** Grafting a placed pair adds that pair to the entries and takes none away. */
  lemma {:induction false} GraftEntries(t: Tree, p: Pair, offset: nat)
    requires Shaped(t) && Target(t, p.0).Leaf? && offset <= |Target(t, p.0).pairs|
    ensures forall q :: q in Entries(Graft(t, p.0, Placed(Target(t, p.0).pairs, offset, p)))
                        <==> q == p || q in Entries(t)
    decreases t
  {
    var grown := Placed(Target(t, p.0).pairs, offset, p);
    PlacedMember(Target(t, p.0).pairs, offset, p);
    if t.Inner? {
      var c := Child(t.seps, p.0);
      GraftEntries(t.kids[c], p, offset);
      var r := Graft(t, p.0, grown);
      forall q
        ensures q in Entries(r) <==> q == p || q in Entries(t)
      {
        EntriesAllMember(r.kids, q);
        EntriesAllMember(t.kids, q);
        assert r.kids[c] == Graft(t.kids[c], p.0, grown);
        assert forall i :: 0 <= i < |t.kids| && i != c ==> r.kids[i] == t.kids[i];
      }
    }
  }

  /** Placed at a separating offset, the pair leaves the tree well ordered. */
  lemma {:induction false} GraftIsWellOrdered(t: Tree, p: Pair, offset: nat)
    requires WellOrdered(t) && Shaped(t) && Target(t, p.0).Leaf?
    requires offset <= |Target(t, p.0).pairs| && Separates(Target(t, p.0).pairs, offset, p.0)
    ensures WellOrdered(Graft(t, p.0, Placed(Target(t, p.0).pairs, offset, p)))
    decreases t
  {
    hide Placed;
    var grown := Placed(Target(t, p.0).pairs, offset, p);
    if t.Leaf? {
      PlacedIsSortedIff(t.pairs, offset, p);
    } else {
      var c := Child(t.seps, p.0);
      GraftIsWellOrdered(t.kids[c], p, offset);
      GraftEntries(t.kids[c], p, offset);
      ChildEncloses(t.seps, p.0);
      var r := Graft(t, p.0, grown);
      forall i, q | 0 <= i < |r.kids| && q in Entries(r.kids[i])
        ensures Between(t.seps, i, q.0)
      {
        if i == c {
          assert q == p || q in Entries(t.kids[c]);
        } else {
          assert r.kids[i] == t.kids[i];
        }
      }
    }
  }

  lemma {:induction false} FindAtTarget(t: Tree, key: Key)
    requires Shaped(t)
    ensures Find(t, key) == Find(Target(t, key), key)
    decreases t
  {
    if t.Inner? && t.seps != [] {
      FindAtTarget(t.kids[Child(t.seps, key)], key);
    }
  }

  /** A new key placed in the leaf its own lookup ends at, between the smaller and the
      larger keys of that leaf, is an insertion into the map of the whole tree. */
  lemma GraftIsInsertion(t: Tree, p: Pair, offset: nat)
    requires WellOrdered(t) && Shaped(t) && Target(t, p.0).Leaf?
    requires offset <= |Target(t, p.0).pairs| && Separates(Target(t, p.0).pairs, offset, p.0)
    ensures var r := Graft(t, p.0, Placed(Target(t, p.0).pairs, offset, p));
            WellOrdered(r) && Contents(r) == Contents(t)[p.0 := p.1]
    ensures p.0 !in Contents(t)
  {
    hide Placed, Graft;
    var r := Graft(t, p.0, Placed(Target(t, p.0).pairs, offset, p));
    GraftIsWellOrdered(t, p, offset);
    GraftEntries(t, p, offset);
    TargetLacksKey(t, p.0, offset);
    LookupIsMapLookup(t, p.0);
    SameMembersSameMap(r, t, p);
  }

  lemma TargetLacksKey(t: Tree, key: Key, offset: nat)
    requires WellOrdered(t) && Shaped(t) && Target(t, key).Leaf?
    requires offset <= |Target(t, key).pairs| && Separates(Target(t, key).pairs, offset, key)
    ensures Find(t, key) == Absent
  {
    var s := Target(t, key);
    FindAtTarget(t, key);
    TargetIsSubtree(t, key);
    SubtreeIsSound([], t, Sizes(0, 0, 0), s);
    forall j | 0 <= j < |s.pairs|
      ensures s.pairs[j].0 != key
    {
      LessIrreflexive(key);
      if j < offset - 1 {
        LessTransitive(s.pairs[j].0, s.pairs[offset - 1].0, key);
      } else if offset < j {
        LessTransitive(key, s.pairs[offset].0, s.pairs[j].0);
      }
    }
    FindInAbsent(s.pairs, key);
  }

  lemma SameMembersSameMap(r: Tree, t: Tree, p: Pair)
    requires WellOrdered(r) && WellOrdered(t) && p.0 !in Contents(t)
    requires forall q :: q in Entries(r) <==> q == p || q in Entries(t)
    ensures Contents(r) == Contents(t)[p.0 := p.1]
  {
    var m, n := Contents(r), Contents(t)[p.0 := p.1];
    forall k | k in m
      ensures k in n && n[k] == m[k]
    {
      InContents(r, (k, m[k]));
      InContents(t, (k, m[k]));
      InContents(r, p);
    }
    forall k | k in n
      ensures k in m && m[k] == n[k]
    {
      InContents(r, (k, n[k]));
      InContents(t, (k, n[k]));
    }
  }

  lemma InContents(t: Tree, p: Pair)
    requires WellOrdered(t)
    ensures p in Entries(t) <==> p.0 in Contents(t) && Contents(t)[p.0] == p.1
  {
    EntriesSorted(t);
    MapOfIsMember(Entries(t), p.0, p.1);
    assert p == (p.0, p.1);
  }

  // ---- on the volume ----------------------------------------------------------------------

  /** Only the child the search takes uses the block of a filled leaf. */
  lemma OtherChildrenAvoid(store: seq<Node>, t: Tree, sz: Sizes, key: Key, i: nat)
    requires Stored(store, t, sz) && WellOrdered(t) && Shaped(t)
    requires t.Inner? && t.seps != [] && i < |t.kids| && i != Child(t.seps, key)
    requires Target(t, key).Leaf?
    requires Target(t, key).pairs != [] || Distinct(Preorder(t))
    ensures Target(t, key).addr !in Preorder(t.kids[i])
  {
    hide Stored, WellOrdered, Entries;
    var s, c := Target(t, key), Child(t.seps, key);
    ChildIsSound(store, t, sz, c);
    ChildIsSound(store, t, sz, i);
    TargetIsSubtree(t.kids[c], key);
    PreorderAt(t.kids[i]);
    if s.addr in Preorder(t.kids[i]) {
      var j :| 0 <= j < |Preorder(t.kids[i])| && Preorder(t.kids[i])[j] == s.addr;
      var s' := Subtrees(t.kids[i])[j];
      SubtreeIsSound(store, t.kids[i], sz, s');
      SubtreeIsSound(store, t.kids[c], sz, s);
      StoredUnique(store, s, s', sz);
      SharedChildIsEmpty(t, if i < c then i else c, if i < c then c else i, s);
      LeafEntries(s);
      MetTwice(t, if i < c then i else c, if i < c then c else i, s);
    }
  }

  lemma LeafEntries(s: Tree)
    requires s.Leaf?
    ensures Entries(s) == s.pairs
  {
  }

  lemma MetTwice(t: Tree, i: nat, k: nat, s: Tree)
    requires t.Inner? && i < k < |t.kids|
    requires s in Subtrees(t.kids[i]) && s in Subtrees(t.kids[k])
    ensures !Distinct(Preorder(t))
  {
    hide Subtrees, SubtreesAll, PreorderAll;
    MetTwiceBelow(t.kids, i, k, s);
    var a, b :| 0 <= a < b < |PreorderAll(t.kids)| && PreorderAll(t.kids)[a] == PreorderAll(t.kids)[b];
    assert Preorder(t)[a + 1] == Preorder(t)[b + 1];
  }

  lemma {:induction false} MetTwiceBelow(kids: seq<Tree>, i: nat, k: nat, s: Tree)
    requires i < k < |kids| && s in Subtrees(kids[i]) && s in Subtrees(kids[k])
    ensures exists a, b :: 0 <= a < b < |PreorderAll(kids)| && PreorderAll(kids)[a] == PreorderAll(kids)[b]
    decreases |kids|
  {
    hide Preorder, Subtrees, SubtreesAll;
    var n, rest := |Preorder(kids[0])|, PreorderAll(kids[1..]);
    assert PreorderAll(kids) == Preorder(kids[0]) + rest;
    if i == 0 {
      PreorderAt(kids[0]);
      var a :| 0 <= a < |Subtrees(kids[0])| && Subtrees(kids[0])[a] == s;
      PreorderAllAt(kids[1..]);
      assert kids[1..][k - 1] == kids[k];
      SubtreesAllMember(kids[1..], s);
      var b :| 0 <= b < |SubtreesAll(kids[1..])| && SubtreesAll(kids[1..])[b] == s;
      assert PreorderAll(kids)[a] == s.addr && PreorderAll(kids)[n + b] == s.addr;
    } else {
      MetTwiceBelow(kids[1..], i - 1, k - 1, s);
      var a, b :| 0 <= a < b < |rest| && rest[a] == rest[b];
      assert PreorderAll(kids)[n + a] == PreorderAll(kids)[n + b];
    }
  }

  lemma TargetUnfold(t: Tree, key: Key, pairs: seq<Pair>)
    requires Shaped(t) && Target(t, key).Leaf?
    ensures t.Inner? ==>
              && t.seps != [] && Child(t.seps, key) < |t.kids|
              && Target(t, key) == Target(t.kids[Child(t.seps, key)], key)
              && Graft(t, key, pairs) ==
                   t.(kids := t.kids[Child(t.seps, key) := Graft(t.kids[Child(t.seps, key)], key, pairs)])
    ensures !t.Inner? ==>
              Target(t, key) == t && Graft(t, key, pairs) == Leaf(t.addr, pairs)
  {
  }

  lemma BlocksDiffer(store: seq<Node>, s: Tree, t: Tree, sz: Sizes)
    requires Stored(store, s, sz) && Stored(store, t, sz) && s.Inner? && t.Leaf?
    ensures s.addr < |store| && s.addr != t.addr
  {
  }

  lemma LeafIsStored(store: seq<Node>, a: nat, node: Node, pairs: seq<Pair>, sz: Sizes)
    requires a < |store| && NodeHolds(node, Leaf(a, pairs), sz)
    ensures Stored(store[a := node], Leaf(a, pairs), sz)
  {
  }

  /** One child exchanged for another in the same block. */
  lemma StoredWithChild(store: seq<Node>, store': seq<Node>, t: Tree, c: nat, kid: Tree, sz: Sizes)
    requires Stored(store, t, sz) && t.Inner? && c < |t.kids| && kid.addr == t.kids[c].addr
    requires |store'| == |store| && store'[t.addr] == store[t.addr]
    requires forall i :: 0 <= i < |t.kids| && i != c ==> Stored(store', t.kids[i], sz)
    requires Stored(store', kid, sz)
    ensures Stored(store', t.(kids := t.kids[c := kid]), sz)
  {
    hide Keys, Ptrs, Usable;
    assert store'[t.addr].info == store[t.addr].info;
  }

  /** The block of the leaf at the end of the search lies nowhere else in the tree. */
  ghost predicate Alone(t: Tree, key: Key)
    requires Shaped(t)
    decreases t
  {
    t.Inner? && t.seps != [] ==>
      var c := Child(t.seps, key);
      && Alone(t.kids[c], key)
      && forall i :: 0 <= i < |t.kids| && i != c ==> Target(t, key).addr !in Preorder(t.kids[i])
  }

  /** A leaf with pairs lies alone, and so does every leaf of a tree that uses no block
      twice: only an empty leaf can be shared. */
  lemma {:induction false} FilledLeafIsAlone(store: seq<Node>, t: Tree, sz: Sizes, key: Key)
    requires Stored(store, t, sz) && WellOrdered(t) && Shaped(t) && Target(t, key).Leaf?
    requires Target(t, key).pairs != [] || Distinct(Preorder(t))
    ensures Alone(t, key)
    decreases t
  {
    hide Stored, WellOrdered, Child, Preorder;
    TargetUnfold(t, key, []);
    if t.Inner? {
      var c := Child(t.seps, key);
      if Target(t, key).pairs == [] {
        DistinctBelow(t, c);
      }
      ChildIsSound(store, t, sz, c);
      FilledLeafIsAlone(store, t.kids[c], sz, key);
      forall i | 0 <= i < |t.kids| && i != c
        ensures Target(t, key).addr !in Preorder(t.kids[i])
      {
        OtherChildrenAvoid(store, t, sz, key, i);
      }
    }
  }

  /** Overwriting the block of a leaf with other pairs stores the grafted tree if and only
      if the leaf lies alone in its block: in a shared leaf the pairs would appear in
      several places at once. */
  lemma {:induction false} GraftIsStoredIff(store: seq<Node>, t: Tree, sz: Sizes, key: Key,
      node: Node, pairs: seq<Pair>)
    requires Stored(store, t, sz) && Shaped(t) && Target(t, key).Leaf?
    requires Target(t, key).addr < |store| && pairs != Target(t, key).pairs
    requires NodeHolds(node, Leaf(Target(t, key).addr, pairs), sz)
    ensures Stored(store[Target(t, key).addr := node], Graft(t, key, pairs), sz) <==> Alone(t, key)
    decreases t
  {
    hide Stored, NodeHolds, Target, Graft, Child;
    var a := Target(t, key).addr;
    var store' := store[a := node];
    TargetUnfold(t, key, pairs);
    if t.Inner? {
      var c, r := Child(t.seps, key), Graft(t, key, pairs);
      TargetIsSubtree(t, key);
      SubtreeIsSound(store, t, sz, Target(t, key));
      BlocksDiffer(store, t, Target(t, key), sz);
      ChildrenAreStored(store, t, sz);
      GraftIsStoredIff(store, t.kids[c], sz, key, node, pairs);
      forall i | 0 <= i < |t.kids| && i != c
        ensures Stored(store', t.kids[i], sz) <==> a !in Preorder(t.kids[i])
      {
        if a in Preorder(t.kids[i]) {
          LeafIsGone(store, t.kids[i], Target(t, key), sz, node, pairs);
        } else {
          StoredFrame(store, store', t.kids[i], sz);
        }
      }
      if Alone(t, key) {
        StoredWithChild(store, store', t, c, r.kids[c], sz);
      }
      if Stored(store', r, sz) {
        ChildrenAreStored(store', r, sz);
        assert |r.kids| == |t.kids| && Stored(store', r.kids[c], sz);
        forall i | 0 <= i < |t.kids| && i != c
          ensures a !in Preorder(t.kids[i])
        {
          assert Stored(store', r.kids[i], sz) && r.kids[i] == t.kids[i];
        }
      }
    } else {
      LeafIsStored(store, t.addr, node, pairs, sz);
    }
  }

  lemma ChildrenAreStored(store: seq<Node>, t: Tree, sz: Sizes)
    requires Stored(store, t, sz) && t.Inner?
    ensures forall i :: 0 <= i < |t.kids| ==> Stored(store, t.kids[i], sz)
  {
  }

  /** A tree that holds the leaf is no longer stored once its block holds other pairs. */
  lemma LeafIsGone(store: seq<Node>, t: Tree, leaf: Tree, sz: Sizes, node: Node, pairs: seq<Pair>)
    requires Stored(store, t, sz) && Stored(store, leaf, sz) && leaf.Leaf?
    requires leaf.addr in Preorder(t) && leaf.addr < |store|
    requires NodeHolds(node, Leaf(leaf.addr, pairs), sz) && pairs != leaf.pairs
    ensures !Stored(store[leaf.addr := node], t, sz)
  {
    PreorderAt(t);
    var j :| 0 <= j < |Preorder(t)| && Preorder(t)[j] == leaf.addr;
    var s := Subtrees(t)[j];
    SubtreeIsSound(store, t, sz, s);
    StoredUnique(store, leaf, s, sz);
    SubtreeIsSound(store[leaf.addr := node], t, sz, s);
  }

  lemma DistinctBelow(t: Tree, i: nat)
    requires t.Inner? && i < |t.kids| && Distinct(Preorder(t))
    ensures Distinct(Preorder(t.kids[i]))
  {
    assert Distinct(PreorderAll(t.kids)) by {
      assert forall j :: 0 <= j < |PreorderAll(t.kids)| ==> PreorderAll(t.kids)[j] == Preorder(t)[j + 1];
    }
    DistinctPart(t.kids, i);
  }

  lemma {:induction false} DistinctPart(kids: seq<Tree>, i: nat)
    requires i < |kids| && Distinct(PreorderAll(kids))
    ensures Distinct(Preorder(kids[i]))
    decreases i
  {
    var n, rest := |Preorder(kids[0])|, PreorderAll(kids[1..]);
    if i == 0 {
      assert forall j :: 0 <= j < n ==> Preorder(kids[0])[j] == PreorderAll(kids)[j];
    } else {
      assert forall j :: 0 <= j < |rest| ==> rest[j] == PreorderAll(kids)[n + j];
      DistinctPart(kids[1..], i - 1);
    }
  }
}
