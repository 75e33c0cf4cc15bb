/** The disk's allocation bitmap: one bit a block, most significant bit first
    (disksystem.cc, GETBIT / SETBIT / CLEARBIT). */
module Bitmap {

  function ByteCount(numblocks: nat): nat {
    numblocks / 8 + (if numblocks % 8 != 0 then 1 else 0)
  }

  function Mask(k: nat): bv8
    requires k < 8
  {
    1 << (7 - k)
  }

  predicate BitOf(b: bv8, k: nat)
    requires k < 8
  {
    (b >> (7 - k)) & 1 == 1
  }

  predicate GetBit(bytes: seq<bv8>, x: nat)
    requires x / 8 < |bytes|
  {
    BitOf(bytes[x / 8], x % 8)
  }

  function SetBit(bytes: seq<bv8>, x: nat): seq<bv8>
    requires x / 8 < |bytes|
  {
    bytes[x / 8 := bytes[x / 8] | Mask(x % 8)]
  }

  function ClearBit(bytes: seq<bv8>, x: nat): seq<bv8>
    requires x / 8 < |bytes|
  {
    bytes[x / 8 := bytes[x / 8] & !Mask(x % 8)]
  }

  /** The set of block numbers below n whose bit is set. */
  function Members(bytes: seq<bv8>, n: nat): (s: set<nat>)
    requires n <= 8 * |bytes|
  {
    set x: nat | 0 <= x < n && GetBit(bytes, x)
  }

  predicate From(lo: nat, x: nat) {
    lo <= x
  }

  function Range(lo: nat, hi: nat): set<nat> {
    set x: nat | x < hi && From(lo, x)
  }

  lemma EmptyRange(lo: nat)
    ensures Range(lo, lo) == {}
  {
  }

  lemma OneRange(x: nat)
    ensures Range(x, x + 1) == {x}
  {
  }

  lemma NextRange(lo: nat, x: nat)
    requires lo <= x
    ensures Range(lo, x + 1) == Range(lo, x) + {x}
  {
  }

  lemma SetBitIs(bytes: seq<bv8>, x: nat, after: seq<bv8>)
    requires x / 8 < |bytes|
    requires after == bytes[x / 8 := bytes[x / 8] | (1 << (7 - x % 8))]
    ensures after == SetBit(bytes, x)
  {
  }

  lemma ClearBitIs(bytes: seq<bv8>, x: nat, after: seq<bv8>)
    requires x / 8 < |bytes|
    requires after == bytes[x / 8 := bytes[x / 8] & !(1 << (7 - x % 8))]
    ensures after == ClearBit(bytes, x)
  {
  }

  lemma ByteInBounds(x: nat, n: nat)
    requires x < n
    ensures x / 8 < ByteCount(n)
    ensures n <= 8 * ByteCount(n) < n + 8
  {
  }

  /** The eight masks, most significant bit first. */
  function Weight(k: nat): bv8
    requires k < 8
  {
    if k == 0 then 128 else if k == 1 then 64 else if k == 2 then 32 else if k == 3 then 16
    else if k == 4 then 8 else if k == 5 then 4 else if k == 6 then 2 else 1
  }

  lemma MaskValue(i: nat)
    requires i < 8
    ensures Mask(i) == Weight(i)
  {
  }

  /** Bit k of a byte is its bit of weight 128 / 2^k. */
  lemma BitOfWeight(b: bv8, k: nat)
    requires k < 8
    ensures BitOf(b, k) == (b & Weight(k) != 0)
  {
  }

  lemma WeightOr(b: bv8, i: nat, k: nat)
    requires i < 8 && k < 8
    ensures ((b | Weight(i)) & Weight(k) != 0) == (k == i || b & Weight(k) != 0)
  {
  }

  lemma WeightAndNot(b: bv8, i: nat, k: nat)
    requires i < 8 && k < 8
    ensures ((b & !Weight(i)) & Weight(k) != 0) == (k != i && b & Weight(k) != 0)
  {
  }

  lemma BitAfterSet(b: bv8, i: nat, k: nat)
    requires i < 8 && k < 8
    ensures BitOf(b | Mask(i), k) == (k == i || BitOf(b, k))
  {
    hide BitOf, Mask, Weight;
    MaskValue(i);
    BitOfWeight(b, k);
    BitOfWeight(b | Weight(i), k);
    WeightOr(b, i, k);
  }

  lemma BitAfterClear(b: bv8, i: nat, k: nat)
    requires i < 8 && k < 8
    ensures BitOf(b & !Mask(i), k) == (k != i && BitOf(b, k))
  {
    hide BitOf, Mask, Weight;
    MaskValue(i);
    BitOfWeight(b, k);
    BitOfWeight(b & !Weight(i), k);
    WeightAndNot(b, i, k);
  }

  /** Setting a bit adds exactly one number, in every byte layout. */
  lemma SetAddsOne(bytes: seq<bv8>, x: nat, n: nat)
    requires n <= 8 * |bytes| && x / 8 < |bytes|
    ensures Members(SetBit(bytes, x), n) == Members(bytes, n) + (if x < n then {x} else {})
  {
    hide BitOf, Mask;
    forall y: nat | y < n
      ensures GetBit(SetBit(bytes, x), y) == (y == x || GetBit(bytes, y))
    {
      if y / 8 == x / 8 {
        BitAfterSet(bytes[x / 8], x % 8, y % 8);
      }
    }
  }

  lemma ClearRemovesOne(bytes: seq<bv8>, x: nat, n: nat)
    requires n <= 8 * |bytes| && x / 8 < |bytes|
    ensures Members(ClearBit(bytes, x), n) == Members(bytes, n) - {x}
  {
    hide BitOf, Mask;
    forall y: nat | y < n
      ensures GetBit(ClearBit(bytes, x), y) == (y != x && GetBit(bytes, y))
    {
      if y / 8 == x / 8 {
        BitAfterClear(bytes[x / 8], x % 8, y % 8);
      }
    }
  }

  /** A zeroed bitmap holds no block. */
  lemma ZeroIsEmpty(bytes: seq<bv8>, n: nat)
    requires n <= 8 * |bytes|
    requires forall i :: 0 <= i < |bytes| ==> bytes[i] == 0
    ensures Members(bytes, n) == {}
  {
    forall y: nat | y < n
      ensures !GetBit(bytes, y)
    {
      assert bytes[y / 8] == 0;
      ZeroBit(y % 8);
    }
  }

  lemma ZeroBit(k: nat)
    requires k < 8
    ensures !BitOf(0, k)
  {
  }
}
