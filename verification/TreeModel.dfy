/** The B+tree as a mathematical tree, the descent rule of LookupOrUpdateInternal and
    the traversal of DisplayInternal on it, and what both say about the one finite map
    the leaves hold. */
module TreeModel {
  import opened Base
  import opened NodeLayout

  type Pair = (Key, Value)

  /** addr is the block a node is stored in. An interior node without separators has
      no children: an empty tree. Alien stands for a block that holds no tree node,
      Beyond for a pointer past the end of the disk. */
  datatype Tree =
    | Leaf(addr: nat, pairs: seq<Pair>)
    | Inner(addr: nat, seps: seq<Key>, kids: seq<Tree>)
    | Alien(addr: nat)
    | Beyond(addr: nat)

  ghost predicate StrictlySorted(ps: seq<Pair>) {
    forall i, j :: 0 <= i < j < |ps| ==> Less(ps[i].0, ps[j].0)
  }

  /** Every separator has a child on each side. */
  ghost predicate Shaped(t: Tree) {
    match t
    case Inner(_, seps, kids) =>
      && |kids| == (if seps == [] then 0 else |seps| + 1)
      && forall i :: 0 <= i < |kids| ==> Shaped(kids[i])
    case _ => true
  }

  /** The pairs in the leaves, left to right. */
  ghost function Entries(t: Tree): seq<Pair>
    decreases t, 1
  {
    match t
    case Leaf(_, pairs) => pairs
    case Inner(_, _, kids) => EntriesAll(kids)
    case _ => []
  }

  ghost function EntriesAll(kids: seq<Tree>): seq<Pair>
    decreases kids, 0
  {
    if kids == [] then [] else Entries(kids[0]) + EntriesAll(kids[1..])
  }

  /** The blocks of the tree, a node before its children, left to right. */
  ghost function Preorder(t: Tree): seq<nat>
    decreases t, 1
  {
    match t
    case Inner(a, _, kids) => [a] + PreorderAll(kids)
    case _ => [t.addr]
  }

  ghost function PreorderAll(kids: seq<Tree>): seq<nat>
    decreases kids, 0
  {
    if kids == [] then [] else Preorder(kids[0]) + PreorderAll(kids[1..])
  }

  /** Key p may lie below child i: above separator i - 1 and at most separator i. */
  ghost predicate Between(seps: seq<Key>, i: nat, k: Key) {
    && (0 < i <= |seps| ==> Less(seps[i - 1], k))
    && (i < |seps| ==> AtMost(k, seps[i]))
  }

  /** Every block is a tree node, leaves are strictly sorted, separators never
      decrease, and each separator divides the keys left and right of it. */
  ghost predicate WellOrdered(t: Tree)
    decreases t
  {
    match t
    case Leaf(_, pairs) => StrictlySorted(pairs)
    case Inner(_, seps, kids) =>
      && |kids| == (if seps == [] then 0 else |seps| + 1)
      && (forall i, j :: 0 <= i < j < |seps| ==> AtMost(seps[i], seps[j]))
      && (forall i :: 0 <= i < |kids| ==> WellOrdered(kids[i]))
      && (forall i, p :: 0 <= i < |kids| && p in Entries(kids[i]) ==> Between(seps, i, p.0))
    case _ => false
  }

  // ---- the source's descent ---------------------------------------------------------

  /** The scan: the first separator that is not below the key, or the last pointer. */
  ghost function Child(seps: seq<Key>, key: Key): (i: nat)
    ensures i <= |seps|
    ensures forall j :: 0 <= j < i ==> !AtMost(key, seps[j])
    ensures i < |seps| ==> AtMost(key, seps[i])
  {
    if seps == [] || AtMost(key, seps[0]) then 0
    else 1 + Child(seps[1..], key)
  }

  /** The scan passes exactly the separators below the key: a key equal to a separator
      goes to the left of it. */
  lemma ChildPassesBelow(seps: seq<Key>, key: Key, i: nat)
    requires i <= |seps|
    ensures i == Child(seps, key)
            <==> (forall j :: 0 <= j < i ==> Less(seps[j], key))
                 && (i < |seps| ==> !Less(seps[i], key))
  {
    var c := Child(seps, key);
    forall j | 0 <= j < |seps|
      ensures Less(seps[j], key) <==> !AtMost(key, seps[j])
    {
      LessTotal(seps[j], key);
      LessIrreflexive(key);
      if Less(seps[j], key) && Less(key, seps[j]) {
        LessTransitive(key, seps[j], key);
      }
    }
    if i < c {
      assert Less(seps[i], key);
    }
  }

  ghost function FindIn(pairs: seq<Pair>, key: Key): Option<Value> {
    if pairs == [] then None
    else if pairs[0].0 == key then Some(pairs[0].1)
    else FindIn(pairs[1..], key)
  }

  ghost predicate FirstAt(pairs: seq<Pair>, key: Key, i: nat) {
    && i < |pairs| && pairs[i].0 == key
    && forall j :: 0 <= j < i ==> pairs[j].0 != key
  }

  /** The leaf scan answers with the first slot that holds the key, sorted or not. */
  lemma {:induction false} FindInIsFirst(pairs: seq<Pair>, key: Key)
    ensures forall i: nat :: FirstAt(pairs, key, i) ==> FindIn(pairs, key) == Some(pairs[i].1)
    ensures FindIn(pairs, key) == None <==> forall i :: 0 <= i < |pairs| ==> pairs[i].0 != key
    decreases |pairs|
  {
    if pairs != [] {
      var rest := pairs[1..];
      FindInIsFirst(rest, key);
      forall i: nat | FirstAt(pairs, key, i) && i > 0
        ensures FirstAt(rest, key, i - 1)
      {
        assert forall j :: 0 <= j < i - 1 ==> rest[j] == pairs[j + 1];
      }
      assert forall i :: 0 <= i < |rest| ==> rest[i] == pairs[i + 1];
      assert forall i :: 0 < i < |pairs| ==> pairs[i] == rest[i - 1];
    }
  }

  /** The blocks a lookup visits. */
  ghost function Path(t: Tree, key: Key): seq<nat>
    requires Shaped(t)
    decreases t
  {
    match t
    case Inner(a, seps, kids) =>
      if seps == [] then [a] else [a] + Path(kids[Child(seps, key)], key)
    case _ => [t.addr]
  }

  lemma PathUnfold(t: Tree, key: Key)
    requires Shaped(t)
    ensures Path(t, key) != [] && Path(t, key)[0] == t.addr
    ensures Path(t, key)[1..] ==
            if !t.Inner? || t.seps == [] then [] else Path(t.kids[Child(t.seps, key)], key)
  {
  }

  /** What a descent can come to. */
  datatype Answer = Found(value: Value) | Absent | Corrupt | Refused

  ghost function Find(t: Tree, key: Key): Answer
    requires Shaped(t)
    decreases t
  {
    match t
    case Leaf(_, pairs) =>
      (match FindIn(pairs, key)
       case Some(v) => Found(v)
       case None => Absent)
    case Inner(_, seps, kids) =>
      if seps == [] then Absent else Find(kids[Child(seps, key)], key)
    case Alien(_) => Corrupt
    case Beyond(_) => Refused
  }

  // ---- the source's traversal --------------------------------------------------------

  /** What a traversal emits, the blocks it reads and how it ends. */
  datatype Showing = Showing(pairs: seq<Pair>, addrs: seq<nat>, rc: ErrorT)

  /** Depth first, stopping at the first block that is no tree node or past the end. */
  ghost function Show(t: Tree): Showing
    decreases t, 1
  {
    match t
    case Leaf(a, pairs) => Showing(pairs, [a], NoError)
    case Inner(a, _, kids) =>
      var r := ShowAll(kids);
      Showing(r.pairs, [a] + r.addrs, r.rc)
    case Alien(a) => Showing([], [a], Insane)
    case Beyond(a) => Showing([], [a], NoSpace)
  }

  ghost function ShowAll(kids: seq<Tree>): Showing
    decreases kids, 0
  {
    if kids == [] then Showing([], [], NoError)
    else
      var s := Show(kids[0]);
      if s.rc != NoError then s
      else
        var r := ShowAll(kids[1..]);
        Showing(s.pairs + r.pairs, s.addrs + r.addrs, r.rc)
  }

  /** A traversal reads blocks of the tree only, sound or not. */
  lemma {:induction false} ShowInTree(t: Tree)
    ensures forall a :: a in Show(t).addrs ==> a in Preorder(t)
    decreases t, 1
  {
    if t.Inner? {
      ShowAllInTree(t.kids);
    }
  }

  lemma {:induction false} ShowAllInTree(kids: seq<Tree>)
    ensures forall a :: a in ShowAll(kids).addrs ==> a in PreorderAll(kids)
    decreases kids, 0
  {
    if kids != [] {
      ShowInTree(kids[0]);
      ShowAllInTree(kids[1..]);
    }
  }

  /** On a well-ordered tree the traversal runs to the end, reads the blocks of the
      tree in preorder and emits every pair. When no block comes twice in that list is
      the subject of SharedBlocks.PreorderDistinctIff. */
  lemma {:induction false} ShowIsComplete(t: Tree)
    requires WellOrdered(t)
    ensures Show(t) == Showing(Entries(t), Preorder(t), NoError)
    decreases t, 1
  {
    if t.Inner? {
      ShowAllIsComplete(t.kids);
    }
  }

  lemma {:induction false} ShowAllIsComplete(kids: seq<Tree>)
    requires forall i :: 0 <= i < |kids| ==> WellOrdered(kids[i])
    ensures ShowAll(kids) == Showing(EntriesAll(kids), PreorderAll(kids), NoError)
    decreases kids, 0
  {
    if kids != [] {
      ShowIsComplete(kids[0]);
      ShowAllIsComplete(kids[1..]);
    }
  }

  // ---- the map ------------------------------------------------------------------------

  ghost function MapOf(ps: seq<Pair>): map<Key, Value> {
    if ps == [] then map[] else MapOf(ps[1..])[ps[0].0 := ps[0].1]
  }

  /** The finite map the tree stands for. */
  ghost function Contents(t: Tree): map<Key, Value> {
    MapOf(Entries(t))
  }

  lemma {:induction false} WellOrderedIsShaped(t: Tree)
    requires WellOrdered(t)
    ensures Shaped(t)
    decreases t
  {
    if t.Inner? {
      forall i | 0 <= i < |t.kids|
        ensures Shaped(t.kids[i])
      {
        WellOrderedIsShaped(t.kids[i]);
      }
    }
  }

  lemma {:induction false} FindInIsMember(ps: seq<Pair>, key: Key, v: Value)
    requires StrictlySorted(ps)
    ensures FindIn(ps, key) == Some(v) <==> (key, v) in ps
    decreases |ps|
  {
    if ps != [] {
      FindInIsMember(ps[1..], key, v);
      LessIrreflexive(key);
      assert ps == [ps[0]] + ps[1..];
    }
  }

  lemma {:induction false} MapOfIsMember(ps: seq<Pair>, key: Key, v: Value)
    requires StrictlySorted(ps)
    ensures (key in MapOf(ps) && MapOf(ps)[key] == v) <==> (key, v) in ps
    decreases |ps|
  {
    if ps != [] {
      MapOfIsMember(ps[1..], key, v);
      LessIrreflexive(key);
      assert ps == [ps[0]] + ps[1..];
    }
  }

  lemma {:induction false} EntriesAllMember(kids: seq<Tree>, p: Pair)
    ensures p in EntriesAll(kids) <==> exists i :: 0 <= i < |kids| && p in Entries(kids[i])
    decreases |kids|
  {
    if kids != [] {
      EntriesAllMember(kids[1..], p);
      if i :| 0 <= i < |kids[1..]| && p in Entries(kids[1..][i]) {
        assert p in Entries(kids[i + 1]);
      }
      if i :| 0 <= i < |kids| && p in Entries(kids[i]) {
        if i > 0 {
          assert p in Entries(kids[1..][i - 1]);
        }
      }
    }
  }

  /** Only the child the scan picks can hold the key. */
  lemma OtherChildrenLackKey(seps: seq<Key>, key: Key, i: nat)
    requires forall a, b :: 0 <= a < b < |seps| ==> AtMost(seps[a], seps[b])
    requires i <= |seps| && Between(seps, i, key)
    ensures i == Child(seps, key)
  {
    var c := Child(seps, key);
    if c < i {
      assert AtMost(key, seps[c]) && Less(seps[i - 1], key);
      AtMostLess(seps[c], seps[i - 1], key);
      AtMostLess(key, seps[c], key);
      LessIrreflexive(key);
    }
  }

  /** Lookup finds exactly the pairs in the leaves and never meets a foreign block. */
  lemma {:induction false} FindIsMember(t: Tree, key: Key, v: Value)
    requires WellOrdered(t)
    ensures Shaped(t)
    ensures Find(t, key) == Found(v) <==> (key, v) in Entries(t)
    ensures Find(t, key) != Corrupt && Find(t, key) != Refused
    decreases t
  {
    WellOrderedIsShaped(t);
    match t {
      case Leaf(_, pairs) => FindInIsMember(pairs, key, v);
      case Inner(_, seps, kids) =>
        EntriesAllMember(kids, (key, v));
        if seps != [] {
          var c := Child(seps, key);
          FindIsMember(kids[c], key, v);
          forall i | 0 <= i < |kids| && (key, v) in Entries(kids[i])
            ensures i == c
          {
            assert Between(seps, i, (key, v).0);
            OtherChildrenLackKey(seps, key, i);
          }
        }
    }
  }

  lemma SortedConcat(a: seq<Pair>, b: seq<Pair>)
    requires StrictlySorted(a) && StrictlySorted(b)
    requires forall p, q :: p in a && q in b ==> Less(p.0, q.0)
    ensures StrictlySorted(a + b)
  {
    var s := a + b;
    forall i, j | 0 <= i < j < |s|
      ensures Less(s[i].0, s[j].0)
    {
      if i < |a| <= j {
        assert s[i] in a && s[j] in b;
      }
    }
  }

  /** The pairs below children i, i + 1, ... are sorted and lie above separator i - 1. */
  lemma {:induction false} SuffixSorted(t: Tree, i: nat)
    requires t.Inner? && WellOrdered(t) && i <= |t.kids|
    requires forall j :: 0 <= j < |t.kids| ==> StrictlySorted(Entries(t.kids[j]))
    ensures StrictlySorted(EntriesAll(t.kids[i..]))
    ensures 0 < i <= |t.seps| ==> forall q :: q in EntriesAll(t.kids[i..]) ==> Less(t.seps[i - 1], q.0)
    decreases |t.kids| - i
  {
    var seps, kids := t.seps, t.kids;
    if i < |kids| {
      SuffixSorted(t, i + 1);
      assert kids[i..][1..] == kids[i + 1..];
      var a, b := Entries(kids[i]), EntriesAll(kids[i + 1..]);
      assert EntriesAll(kids[i..]) == a + b;
      forall p, q | p in a && q in b
        ensures Less(p.0, q.0)
      {
        assert Between(seps, i, p.0);
        if i < |seps| {
          AtMostLess(p.0, seps[i], q.0);
        }
      }
      SortedConcat(a, b);
      forall q | q in EntriesAll(kids[i..]) && 0 < i <= |seps|
        ensures Less(seps[i - 1], q.0)
      {
        if q in a {
          assert Between(seps, i, q.0);
        } else if i < |seps| {
          assert AtMost(seps[i - 1], seps[i]) && Less(seps[i], q.0);
          AtMostLess(seps[i - 1], seps[i], q.0);
        }
      }
    }
  }

  /** The display of a well-ordered tree lists its keys in strictly increasing order. */
  lemma {:induction false} EntriesSorted(t: Tree)
    requires WellOrdered(t)
    ensures StrictlySorted(Entries(t))
    decreases t
  {
    if t.Inner? {
      forall j | 0 <= j < |t.kids|
        ensures StrictlySorted(Entries(t.kids[j]))
      {
        EntriesSorted(t.kids[j]);
      }
      SuffixSorted(t, 0);
      assert t.kids[0..] == t.kids;
    }
  }

  /** Lookup by descent is lookup in the map the leaves hold. */
  lemma LookupIsMapLookup(t: Tree, key: Key)
    requires WellOrdered(t)
    ensures Shaped(t)
    ensures Find(t, key) == if key in Contents(t) then Found(Contents(t)[key]) else Absent
  {
    WellOrderedIsShaped(t);
    EntriesSorted(t);
    if key in Contents(t) {
      var v := Contents(t)[key];
      MapOfIsMember(Entries(t), key, v);
      FindIsMember(t, key, v);
    } else {
      FindIsMember(t, key, []);
      if Find(t, key).Found? {
        var v := Find(t, key).value;
        FindIsMember(t, key, v);
        MapOfIsMember(Entries(t), key, v);
      }
    }
  }

  /** The display emits exactly the pairs lookup can find, each key once and in
      increasing order. */
  lemma DisplayMatchesLookup(t: Tree)
    requires WellOrdered(t)
    ensures Shaped(t)
    ensures StrictlySorted(Entries(t))
    ensures forall p: Pair :: p in Entries(t) <==> Find(t, p.0) == Found(p.1)
    ensures forall p: Pair :: p in Entries(t) <==> p.0 in Contents(t) && Contents(t)[p.0] == p.1
  {
    WellOrderedIsShaped(t);
    EntriesSorted(t);
    forall p: Pair
      ensures p in Entries(t) <==> Find(t, p.0) == Found(p.1)
      ensures p in Entries(t) <==> p.0 in Contents(t) && Contents(t)[p.0] == p.1
    {
      assert p == (p.0, p.1);
      FindIsMember(t, p.0, p.1);
      MapOfIsMember(Entries(t), p.0, p.1);
    }
  }

  /** A lookup visits blocks of the tree only. */
  lemma {:induction false} PathInTree(t: Tree, key: Key)
    requires Shaped(t)
    ensures forall a :: a in Path(t, key) ==> a in Preorder(t)
    decreases t
  {
    if t.Inner? && t.seps != [] {
      var c := Child(t.seps, key);
      PathInTree(t.kids[c], key);
      PreorderAllMember(t.kids, c);
    }
  }

  lemma {:induction false} PreorderAllMember(kids: seq<Tree>, i: nat)
    requires i < |kids|
    ensures forall a :: a in Preorder(kids[i]) ==> a in PreorderAll(kids)
    decreases |kids|
  {
    if i > 0 {
      PreorderAllMember(kids[1..], i - 1);
    }
  }

  // ---- a pair placed in a leaf -------------------------------------------------------------

  /** What the shift loop makes of a leaf. */
  ghost function Placed(pairs: seq<Pair>, offset: nat, p: Pair): seq<Pair>
    requires offset <= |pairs|
  {
    pairs[..offset] + [p] + pairs[offset..]
  }

  /** The offset separates the smaller keys of the leaf from the larger ones. */
  ghost predicate Separates(pairs: seq<Pair>, offset: nat, key: Key)
    requires offset <= |pairs|
  {
    && (offset > 0 ==> Less(pairs[offset - 1].0, key))
    && (offset < |pairs| ==> Less(key, pairs[offset].0))
  }

  lemma PlacedAt(pairs: seq<Pair>, offset: nat, p: Pair, i: nat)
    requires offset <= |pairs| && i <= |pairs|
    ensures |Placed(pairs, offset, p)| == |pairs| + 1
    ensures Placed(pairs, offset, p)[i] ==
            if i < offset then pairs[i] else if i == offset then p else pairs[i - 1]
  {
  }

  /** Placing a pair in a sorted leaf keeps it sorted exactly when the offset separates
      the smaller keys from the larger ones. */
  lemma PlacedIsSortedIff(pairs: seq<Pair>, offset: nat, p: Pair)
    requires StrictlySorted(pairs) && offset <= |pairs|
    ensures StrictlySorted(Placed(pairs, offset, p)) <==> Separates(pairs, offset, p.0)
  {
    hide Placed;
    var s := Placed(pairs, offset, p);
    PlacedAt(pairs, offset, p, offset);
    if offset > 0 {
      PlacedAt(pairs, offset, p, offset - 1);
    }
    if offset < |pairs| {
      PlacedAt(pairs, offset, p, offset + 1);
    }
    if Separates(pairs, offset, p.0) {
      PlacedBetween(pairs, offset, p);
    }
  }

  lemma PlacedBetween(pairs: seq<Pair>, offset: nat, p: Pair)
    requires StrictlySorted(pairs) && offset <= |pairs| && Separates(pairs, offset, p.0)
    ensures StrictlySorted(Placed(pairs, offset, p))
  {
    hide Placed;
    var s := Placed(pairs, offset, p);
    PlacedAt(pairs, offset, p, 0);
    forall i, j | 0 <= i < j < |s|
      ensures Less(s[i].0, s[j].0)
    {
      PlacedAt(pairs, offset, p, i);
      PlacedAt(pairs, offset, p, j);
      if j == offset && i < offset - 1 {
        LessTransitive(pairs[i].0, pairs[offset - 1].0, p.0);
      } else if i == offset && offset + 1 < j {
        LessTransitive(p.0, pairs[offset].0, pairs[j - 1].0);
      }
    }
  }

  /** ... and then a lookup in the leaf finds the new pair and every old one. */
  lemma PlacedIsFound(pairs: seq<Pair>, offset: nat, p: Pair, key: Key)
    requires StrictlySorted(pairs) && offset <= |pairs| && Separates(pairs, offset, p.0)
    ensures FindIn(Placed(pairs, offset, p), key) == if key == p.0 then Some(p.1) else FindIn(pairs, key)
  {
    var s := Placed(pairs, offset, p);
    PlacedIsSortedIff(pairs, offset, p);
    assert forall q :: q in s <==> q == p || q in pairs by {
      assert pairs == pairs[..offset] + pairs[offset..];
    }
    if key == p.0 {
      assert p == (key, p.1);
      FindInIsMember(s, key, p.1);
    } else {
      if FindIn(pairs, key).Some? {
        FindInIsMember(pairs, key, FindIn(pairs, key).value);
        FindInIsMember(s, key, FindIn(pairs, key).value);
      }
      if FindIn(s, key).Some? {
        FindInIsMember(s, key, FindIn(s, key).value);
        FindInIsMember(pairs, key, FindIn(s, key).value);
      }
    }
  }

  /** The slot of a leaf at which Insert first places a new pair, scanning from slot i:
      it passes over an equal key, and stops at the last slot or at a stored key below
      the new one. It finds no slot in an empty leaf. The source does not leave its
      scan after placing; what follows the first placement is not modelled. */
  ghost function InsertScan(pairs: seq<Pair>, key: Key, i: nat := 0): (r: Option<nat>)
    requires i <= |pairs|
    ensures r.Some? ==> i <= r.value < |pairs| && pairs[r.value].0 != key
    decreases |pairs| - i
  {
    if i == |pairs| then None
    else if pairs[i].0 == key then InsertScan(pairs, key, i + 1)
    else if i == |pairs| - 1 || Less(pairs[i].0, key) then Some(i)
    else InsertScan(pairs, key, i + 1)
  }

  /** A scan that sees no key below the new one ends at the last slot. */
  lemma {:induction false} ScanRunsToEnd(pairs: seq<Pair>, key: Key, i: nat)
    requires i < |pairs|
    requires forall j :: i <= j < |pairs| ==> Less(key, pairs[j].0)
    ensures InsertScan(pairs, key, i) == Some(|pairs| - 1)
    decreases |pairs| - i
  {
    assert Less(key, pairs[i].0);
    LessIrreflexive(key);
    if Less(pairs[i].0, key) {
      LessTransitive(key, pairs[i].0, key);
    } else if i + 1 < |pairs| {
      ScanRunsToEnd(pairs, key, i + 1);
    }
  }

  /** Where the scan stops in a sorted leaf: at the first key when that is below the
      new one, else at the last. */
  lemma ScanStops(pairs: seq<Pair>, key: Key)
    requires StrictlySorted(pairs)
    ensures InsertScan(pairs, key) ==
            if pairs == [] || (|pairs| == 1 && pairs[0].0 == key) then None
            else if Less(pairs[0].0, key) then Some(0)
            else Some(|pairs| - 1)
  {
    if pairs != [] {
      LessTotal(pairs[0].0, key);
      LessIrreflexive(key);
      if pairs[0].0 == key && |pairs| > 1 {
        ScanRunsToEnd(pairs, key, 1);
      } else if Less(key, pairs[0].0) {
        forall j | 0 <= j < |pairs|
          ensures Less(key, pairs[j].0)
        {
          if j > 0 {
            LessTransitive(key, pairs[0].0, pairs[j].0);
          }
        }
        ScanRunsToEnd(pairs, key, 0);
      }
    }
  }

  /** The scan of Insert keeps a sorted leaf sorted in one case only: the leaf holds a
      single pair and the new key lies below it. In every other case it finds no slot
      or a wrong one. */
  lemma InsertScanIsRightIff(pairs: seq<Pair>, p: Pair)
    requires StrictlySorted(pairs)
    ensures (InsertScan(pairs, p.0).Some?
             && StrictlySorted(Placed(pairs, InsertScan(pairs, p.0).value, p)))
            <==> |pairs| == 1 && Less(p.0, pairs[0].0)
  {
    hide Placed, StrictlySorted;
    ScanStops(pairs, p.0);
    LessIrreflexive(p.0);
    if InsertScan(pairs, p.0).Some? {
      var at := InsertScan(pairs, p.0).value;
      PlacedIsSortedIff(pairs, at, p);
      if Less(pairs[at].0, p.0) {
        StoppingBelowMisplaces(pairs, at, p);
      } else if |pairs| > 1 {
        StoppingLastMisplaces(pairs, p);
      }
    }
  }

  /** Wherever the scan stops there is a pair to shift, so the shift loop as the source
      has it, with the key count not yet raised, always runs into an assertion. */
  lemma PlacingAsWrittenAsserts(n: Node, key: Key)
    requires Usable(n) && IsLeaf(n.info) && InsertScan(Pairs(n), key).Some?
    ensures exists i :: InsertScan(Pairs(n), key).value < i <= n.info.numkeys
                        && !ValidCell(n.info, KeyCell(i))
  {
    ShiftIsCountedIff(n.info, InsertScan(Pairs(n), key).value);
  }

  /** The first stop condition of the scan: a stored key below the new one. The pair is
      placed before a smaller key, at whatever slot. */
  lemma StoppingBelowMisplaces(pairs: seq<Pair>, offset: nat, p: Pair)
    requires StrictlySorted(pairs) && offset < |pairs|
    requires Less(pairs[offset].0, p.0)
    ensures !StrictlySorted(Placed(pairs, offset, p))
  {
    PlacedIsSortedIff(pairs, offset, p);
    LessIrreflexive(p.0);
    if Less(p.0, pairs[offset].0) {
      LessTransitive(p.0, pairs[offset].0, p.0);
    }
  }

  /** The second: the last slot of several. With no stored key below the new one the
      pair lands behind a larger or equal key. */
  lemma StoppingLastMisplaces(pairs: seq<Pair>, p: Pair)
    requires StrictlySorted(pairs) && |pairs| > 1
    requires !Less(pairs[0].0, p.0)
    ensures !StrictlySorted(Placed(pairs, |pairs| - 1, p))
  {
    var last := |pairs| - 1;
    PlacedIsSortedIff(pairs, last, p);
    if Less(pairs[last - 1].0, p.0) && last > 1 {
      LessTransitive(pairs[0].0, pairs[last - 1].0, p.0);
    }
  }

  // ---- the separator of a split leaf ---------------------------------------------------------

  /** Two leaves under one separator. */
  ghost function Split(pairs: seq<Pair>, at: nat, sep: Key, a: nat, left: nat, right: nat): Tree
    requires at <= |pairs|
  {
    Inner(a, [sep], [Leaf(left, pairs[..at]), Leaf(right, pairs[at..])])
  }

  lemma SplitEntries(pairs: seq<Pair>, at: nat, sep: Key, a: nat, left: nat, right: nat)
    requires at <= |pairs|
    ensures Entries(Split(pairs, at, sep, a, left, right)) == pairs
  {
    var l, r := Leaf(left, pairs[..at]), Leaf(right, pairs[at..]);
    assert [l, r][1..] == [r] && [r][1..] == [];
    assert EntriesAll([r]) == pairs[at..];
    assert EntriesAll([l, r]) == pairs[..at] + pairs[at..];
  }

  /** A split of a sorted leaf is well ordered exactly when the separator is not below
      the last key of the left half and is below the first key of the right half. */
  lemma SplitIsWellOrderedIff(pairs: seq<Pair>, at: nat, sep: Key, a: nat, left: nat, right: nat)
    requires StrictlySorted(pairs) && 0 < at < |pairs|
    ensures WellOrdered(Split(pairs, at, sep, a, left, right))
            <==> AtMost(pairs[at - 1].0, sep) && Less(sep, pairs[at].0)
  {
    var t := Split(pairs, at, sep, a, left, right);
    if WellOrdered(t) {
      LastInFirstHalf(pairs, at);
      assert pairs[at - 1] in Entries(t.kids[0]) && pairs[at] in Entries(t.kids[1]);
      assert Between(t.seps, 0, pairs[at - 1].0) && Between(t.seps, 1, pairs[at].0);
    }
    if AtMost(pairs[at - 1].0, sep) && Less(sep, pairs[at].0) {
      SplitDivides(pairs, at, sep);
      forall i, p | 0 <= i < 2 && p in Entries(t.kids[i])
        ensures Between(t.seps, i, p.0)
      {
      }
    }
  }

  lemma LastInFirstHalf(pairs: seq<Pair>, at: nat)
    requires 0 < at < |pairs|
    ensures pairs[at - 1] in pairs[..at] && pairs[at] in pairs[at..]
  {
    assert pairs[..at][at - 1] == pairs[at - 1] && pairs[at..][0] == pairs[at];
  }

  lemma SplitDivides(pairs: seq<Pair>, at: nat, sep: Key)
    requires StrictlySorted(pairs) && 0 < at < |pairs|
    requires AtMost(pairs[at - 1].0, sep) && Less(sep, pairs[at].0)
    ensures forall p :: p in pairs[..at] ==> AtMost(p.0, sep)
    ensures forall p :: p in pairs[at..] ==> Less(sep, p.0)
  {
    forall j | 0 <= j < at - 1
      ensures AtMost(pairs[j].0, sep)
    {
      AtMostLess(pairs[j].0, pairs[at - 1].0, sep);
    }
    forall j | at < j < |pairs|
      ensures Less(sep, pairs[j].0)
    {
      LessTransitive(sep, pairs[at].0, pairs[j].0);
    }
  }

  /** The split in the source promotes the first key of the right half. The descent
      sends a key equal to a separator to the left, so for every leaf and every split
      point that key can no longer be found, although it is still stored. */
  lemma PromotedKeyIsLost(pairs: seq<Pair>, at: nat, a: nat, left: nat, right: nat)
    requires StrictlySorted(pairs) && 0 < at < |pairs|
    ensures var t := Split(pairs, at, pairs[at].0, a, left, right);
            && pairs[at] in Entries(t)
            && !WellOrdered(t)
            && Shaped(t) && Find(t, pairs[at].0) == Absent
  {
    var key := pairs[at].0;
    var t := Split(pairs, at, key, a, left, right);
    SplitEntries(pairs, at, key, a, left, right);
    SplitIsWellOrderedIff(pairs, at, key, a, left, right);
    LessIrreflexive(key);
    assert Child(t.seps, key) == 0;
    assert Find(t, key) == Find(Leaf(left, pairs[..at]), key);
    forall p | p in pairs[..at]
      ensures p.0 != key
    {
      var j :| 0 <= j < at && pairs[j] == p;
      assert Less(pairs[j].0, pairs[at].0);
    }
    FindInAbsent(pairs[..at], key);
  }

  lemma {:induction false} FindInAbsent(ps: seq<Pair>, key: Key)
    requires forall p :: p in ps ==> p.0 != key
    ensures FindIn(ps, key) == None
    decreases |ps|
  {
    if ps != [] {
      FindInAbsent(ps[1..], key);
    }
  }

  // ---- trees in blocks ---------------------------------------------------------------------

  /** The sizes an index is created with. */
  datatype Sizes = Sizes(key: nat, value: nat, block: nat)

  /** One stored node matches one node of the tree. */
  ghost predicate NodeHolds(n: Node, t: Tree, sz: Sizes) {
    && n.info.blocksize == sz.block
    && match t
       case Beyond(_) => false
       case Alien(_) => !IsLeaf(n.info) && !IsInner(n.info)
       case Leaf(_, pairs) =>
         && Usable(n) && n.info.keysize == sz.key && n.info.valuesize == sz.value
         && IsLeaf(n.info) && Pairs(n) == pairs
       case Inner(_, seps, kids) =>
         && Usable(n) && n.info.keysize == sz.key && n.info.valuesize == sz.value
         && IsInner(n.info) && Keys(n) == seps
         && |kids| == (if seps == [] then 0 else |seps| + 1)
         && forall i :: 0 <= i < |kids| ==> Ptrs(n)[i] == kids[i].addr
  }

  /** The tree t is stored in the volume. */
  ghost predicate Stored(store: seq<Node>, t: Tree, sz: Sizes)
    decreases t
  {
    if t.Beyond? then |store| <= t.addr < BLOCK_LIMIT
    else
      && t.addr < |store|
      && NodeHolds(store[t.addr], t, sz)
      && (t.Inner? ==> forall i :: 0 <= i < |t.kids| ==> Stored(store, t.kids[i], sz))
  }

  lemma {:induction false} StoredIsShaped(store: seq<Node>, t: Tree, sz: Sizes)
    requires Stored(store, t, sz)
    ensures Shaped(t)
    decreases t
  {
    if t.Inner? {
      forall i | 0 <= i < |t.kids|
        ensures Shaped(t.kids[i])
      {
        StoredIsShaped(store, t.kids[i], sz);
      }
    }
  }

  /** Writing blocks outside the tree leaves it stored. */
  lemma {:induction false} StoredFrame(store: seq<Node>, store': seq<Node>, t: Tree, sz: Sizes)
    requires Stored(store, t, sz) && |store'| == |store|
    requires forall a :: a in Preorder(t) && a < |store| ==> store'[a] == store[a]
    ensures Stored(store', t, sz)
    decreases t
  {
    assert t.addr in Preorder(t);
    if t.Inner? {
      forall i | 0 <= i < |t.kids|
        ensures Stored(store', t.kids[i], sz)
      {
        PreorderAllMember(t.kids, i);
        StoredFrame(store, store', t.kids[i], sz);
      }
    }
  }

  /** Every block of a well-ordered stored tree is on the volume. */
  lemma {:induction false} StoredInRange(store: seq<Node>, t: Tree, sz: Sizes)
    requires Stored(store, t, sz) && WellOrdered(t)
    ensures forall a :: a in Preorder(t) ==> a < |store|
    decreases t, 1
  {
    if t.Inner? {
      StoredAllInRange(store, t.kids, sz);
    }
  }

  lemma {:induction false} StoredAllInRange(store: seq<Node>, kids: seq<Tree>, sz: Sizes)
    requires forall i :: 0 <= i < |kids| ==> Stored(store, kids[i], sz) && WellOrdered(kids[i])
    ensures forall a :: a in PreorderAll(kids) ==> a < |store|
    decreases kids, 0
  {
    if kids != [] {
      StoredInRange(store, kids[0], sz);
      StoredAllInRange(store, kids[1..], sz);
    }
  }

  /** Every pointer of a stored tree is a block number the cache accepts. */
  lemma {:induction false} StoredIsReadable(store: seq<Node>, t: Tree, sz: Sizes)
    requires Stored(store, t, sz) && |store| <= BLOCK_LIMIT
    ensures forall a :: a in Preorder(t) ==> a < BLOCK_LIMIT
    decreases t, 1
  {
    if t.Inner? {
      StoredAllReadable(store, t.kids, sz);
    }
  }

  lemma {:induction false} StoredAllReadable(store: seq<Node>, kids: seq<Tree>, sz: Sizes)
    requires forall i :: 0 <= i < |kids| ==> Stored(store, kids[i], sz)
    requires |store| <= BLOCK_LIMIT
    ensures forall a :: a in PreorderAll(kids) ==> a < BLOCK_LIMIT
    decreases kids, 0
  {
    if kids != [] {
      StoredIsReadable(store, kids[0], sz);
      StoredAllReadable(store, kids[1..], sz);
    }
  }
}
