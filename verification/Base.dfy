/** Machine-level vocabulary shared by every layer: 32-bit sizes, bytes,
    blocks, error codes and the byte order of keys. */
module Base {

  const WORD: int := 0x1_0000_0000

  /** The source's 32-bit unsigned SIZE_T. */
  type SizeT = x: int | 0 <= x < 0x1_0000_0000

  /** Block numbers lie below this bound, so that "number + 1" does not wrap. */
  const BLOCK_LIMIT: nat := 0xFFFF_FFFF

  newtype Byte = x: int | 0 <= x < 256

  type Block = seq<Byte>
  type Key = seq<Byte>
  type Value = seq<Byte>

  datatype Option<+T> = None | Some(value: T)

  datatype ErrorT =
    | NoError
    | NoSuchBlock
    | NoSpace
    | NonExistent
    | NoMem
    | Unimplemented
    | Insane

  /** Unsigned 32-bit wrap-around. */
  function Wrap(x: int): SizeT {
    x % WORD
  }

  /** Strict lexicographic order on bytes: what memcmp(a, b, n) < 0 decides for
      two buffers of the same length n. */
  predicate Less(a: seq<Byte>, b: seq<Byte>)
    decreases |a|
  {
    if a == [] || b == [] then b != [] && a == []
    else a[0] < b[0] || (a[0] == b[0] && Less(a[1..], b[1..]))
  }

  lemma {:induction false} LessIrreflexive(a: seq<Byte>)
    ensures !Less(a, a)
    decreases |a|
  {
    if a != [] {
      LessIrreflexive(a[1..]);
    }
  }

  lemma {:induction false} LessTransitive(a: seq<Byte>, b: seq<Byte>, c: seq<Byte>)
    requires Less(a, b) && Less(b, c)
    ensures Less(a, c)
    decreases |a|
  {
    if a != [] && b != [] && c != [] && a[0] == b[0] && b[0] == c[0] {
      LessTransitive(a[1..], b[1..], c[1..]);
    }
  }

  lemma {:induction false} LessTotal(a: seq<Byte>, b: seq<Byte>)
    ensures Less(a, b) || a == b || Less(b, a)
    decreases |a|
  {
    if a != [] && b != [] && a[0] == b[0] {
      LessTotal(a[1..], b[1..]);
      if a[1..] == b[1..] {
        assert a == [a[0]] + a[1..] && b == [b[0]] + b[1..];
      }
    }
  }

  /** a and b agree before position i, where a ends or holds the smaller byte. */
  ghost predicate DiffersAt(a: seq<Byte>, b: seq<Byte>, i: nat) {
    && i <= |a| && i < |b| && a[..i] == b[..i]
    && (i == |a| || a[i] < b[i])
  }

  /** The order is that of memcmp: the first byte that differs decides, and bytes
      compare as unsigned numbers. */
  lemma {:induction false} LessIsFirstDifference(a: seq<Byte>, b: seq<Byte>)
    ensures Less(a, b) <==> exists i: nat :: DiffersAt(a, b, i)
    decreases |a|
  {
    if a == [] || b == [] {
      assert b != [] && a == [] ==> DiffersAt(a, b, 0);
    } else {
      LessIsFirstDifference(a[1..], b[1..]);
      if a[0] < b[0] {
        assert DiffersAt(a, b, 0);
      }
      if i: nat :| a[0] == b[0] && DiffersAt(a[1..], b[1..], i) {
        assert a[..i + 1] == [a[0]] + a[1..][..i] && b[..i + 1] == [b[0]] + b[1..][..i];
        assert DiffersAt(a, b, i + 1);
      }
      if i: nat :| DiffersAt(a, b, i) && i > 0 {
        assert a[0] == a[..i][0] == b[..i][0] == b[0];
        assert a[1..][..i - 1] == a[..i][1..] == b[..i][1..] == b[1..][..i - 1];
        assert DiffersAt(a[1..], b[1..], i - 1);
      }
    }
  }

  predicate AtMost(a: seq<Byte>, b: seq<Byte>) {
    a == b || Less(a, b)
  }

  lemma AtMostLess(a: seq<Byte>, b: seq<Byte>, c: seq<Byte>)
    requires (AtMost(a, b) && Less(b, c)) || (Less(a, b) && AtMost(b, c))
    ensures Less(a, c)
  {
    if a != b && b != c {
      LessTransitive(a, b, c);
    }
  }

  ghost predicate IsLeast(m: nat, s: set<nat>) {
    m in s && forall x :: x in s ==> m <= x
  }

  lemma {:induction false} LeastExists(s: set<nat>)
    requires s != {}
    ensures exists m :: IsLeast(m, s)
    decreases |s|
  {
    var y :| y in s;
    if s == {y} {
      assert IsLeast(y, s);
    } else {
      assert s == {y} + (s - {y});
      LeastExists(s - {y});
      var m :| IsLeast(m, s - {y});
      assert IsLeast(if y <= m then y else m, s);
    }
  }

  ghost function Elements(s: seq<nat>): set<nat> {
    set i | 0 <= i < |s| :: s[i]
  }

  /** No element twice. */
  ghost predicate Distinct(s: seq<nat>) {
    forall i, j :: 0 <= i < j < |s| ==> s[i] != s[j]
  }

  ghost predicate Ascending(s: seq<nat>) {
    forall i, j :: 0 <= i < j < |s| ==> s[i] < s[j]
  }

  function Least(s: set<nat>): (m: nat)
    requires s != {}
    ensures IsLeast(m, s)
  {
    LeastExists(s);
    var m :| m in s && forall x :: x in s ==> m <= x;
    m
  }

  /** The elements of a set in increasing order: how a std::map with
      operator< on its keys is iterated. */
  function SortedKeys(s: set<nat>): (r: seq<nat>)
    decreases |s|
  {
    if s == {} then [] else [Least(s)] + SortedKeys(s - {Least(s)})
  }

  lemma {:induction false} SortedKeysCorrect(s: set<nat>)
    ensures Ascending(SortedKeys(s))
    ensures forall x :: x in SortedKeys(s) <==> x in s
    ensures |SortedKeys(s)| == |s|
    decreases |s|
  {
    if s != {} {
      var m, tail := Least(s), s - {Least(s)};
      SortedKeysCorrect(tail);
      assert forall x :: x in s <==> x == m || x in tail;
      PrependAscending(m, SortedKeys(tail));
    }
  }

  lemma PrependAscending(m: nat, rest: seq<nat>)
    requires Ascending(rest)
    requires forall x :: x in rest ==> m < x
    ensures Ascending([m] + rest)
  {
    var s := [m] + rest;
    forall i, j | 0 <= i < j < |s|
      ensures s[i] < s[j]
    {
      assert s[j] == rest[j - 1] && rest[j - 1] in rest;
    }
  }

  // ---- integer arithmetic -----------------------------------------------------

  lemma Euclid(x: nat, c: nat)
    requires 0 < c
    ensures x == c * (x / c) + x % c
    ensures 0 <= x % c < c
    ensures 0 <= x / c <= x
  {
    var q := x / c;
    if q > x {
      Larger(c, q);
    }
  }

  lemma Larger(c: nat, q: nat)
    requires 0 < c
    ensures q <= c * q
  {
  }

  lemma QuotientUnique(c: nat, q: nat, r: nat, q': nat, r': nat)
    requires r < c && r' < c
    requires c * q + r == c * q' + r'
    ensures q == q' && r == r'
  {
    if q < q' {
      Gap(c, q, q');
    } else if q' < q {
      Gap(c, q', q);
    }
  }

  lemma Gap(c: nat, a: nat, b: nat)
    requires a < b
    ensures c * a + c <= c * b
  {
    var d := b - a;
    assert c * b == c * a + c * d;
    Larger(d, c);
  }

  lemma DivMonotone(a: nat, b: nat, c: nat)
    requires 0 < c && a <= b
    ensures a / c <= b / c
  {
    Euclid(a, c);
    Euclid(b, c);
    var qa, qb := a / c, b / c;
    if qb < qa {
      Gap(c, qb, qa);
    }
  }

  lemma DivBelow(x: nat, c: nat, t: nat)
    requires 0 < c && x < c * t
    ensures x / c < t
  {
    Euclid(x, c);
    var q := x / c;
    if q > t {
      Gap(c, t, q);
    }
  }

  lemma NextQuotient(x: nat, c: nat)
    requires 0 < c
    ensures x % c < c - 1 ==> (x + 1) / c == x / c && (x + 1) % c == x % c + 1
    ensures x % c == c - 1 ==> (x + 1) / c == x / c + 1 && (x + 1) % c == 0
  {
    Euclid(x, c);
    Euclid(x + 1, c);
    var q, r := x / c, x % c;
    if r < c - 1 {
      QuotientUnique(c, q, r + 1, (x + 1) / c, (x + 1) % c);
    } else {
      assert c * (q + 1) == c * q + c;
      QuotientUnique(c, q + 1, 0, (x + 1) / c, (x + 1) % c);
    }
  }

  lemma Positive(a: int, b: int)
    requires 0 < a && 0 < b
    ensures 0 < a * b
  {
  }
}
