/**
 * Occupancy masks: a 16-bit word in which bit v-1 records that digit v (1..9)
 * is already placed in a row, column or box.
 * BitIsShift and HasIsAnd tie Bit and Has to `1 << (v - 1)` and `bit & mask != 0`.
 */
module Masks {

  /** The bit of digit `v`: bit v-1. */
  function Bit(v: int): bv16
    requires 1 <= v <= 9
    decreases v
  {
    if v == 1 then 1 else Bit(v - 1) << 1
  }

  /** Whether digit `v` is marked in mask `m`: bit v-1 of `m` is set. */
  predicate Has(m: bv16, v: int)
    requires 1 <= v <= 9
    decreases v
  {
    if v == 1 then m & 1 == 1 else Has(m >> 1, v - 1)
  }

  /** Only the nine digit bits may be set; bits 9..15 are clear. */
  predicate OnlyDigitBits(m: bv16) {
    m & 0xFE00 == 0
  }

  /** Bit(v) is the shift `1 << (v - 1)` the source computes. */
  lemma BitIsShift(v: int)
    requires 1 <= v <= 9
    ensures Bit(v) == 1 << (v - 1)
  {
    if v == 1 {} else if v == 2 {} else if v == 3 {} else if v == 4 {} else if v == 5 {}
    else if v == 6 {} else if v == 7 {} else if v == 8 {} else {}
  }

  /** Has is the source's test `bit & mask != 0`. */
  lemma {:induction false} HasIsAnd(m: bv16, v: int)
    requires 1 <= v <= 9
    ensures Has(m, v) <==> m & Bit(v) != 0
    decreases v
  {
    if v > 1 {
      HasIsAnd(m >> 1, v - 1);
      AndOfShift(m, Bit(v - 1));
    }
  }

  /** Shifting the mask right meets `x` exactly when the mask meets `x` shifted left. */
  lemma AndOfShift(m: bv16, x: bv16)
    ensures (m >> 1) & x != 0 <==> m & (x << 1) != 0
  {
  }

  /** The empty mask marks no digit. */
  lemma {:induction false} HasNone(w: int)
    requires 1 <= w <= 9
    ensures !Has(0, w)
    decreases w
  {
    if w > 1 {
      HasNone(w - 1);
    }
  }

  /** A digit is marked in a union exactly when it is marked in one of the parts. */
  lemma HasUnion(a: bv16, b: bv16, w: int)
    requires 1 <= w <= 9
    ensures Has(a | b, w) <==> Has(a, w) || Has(b, w)
  {
    HasIsAnd(a | b, w);
    HasIsAnd(a, w);
    HasIsAnd(b, w);
    AndOfUnion(a, b, Bit(w));
  }

  /** A bit of `x` meets `a | b` exactly when it meets `a` or `b`. */
  lemma AndOfUnion(a: bv16, b: bv16, x: bv16)
    ensures (a | b) & x != 0 <==> a & x != 0 || b & x != 0
  {
  }

  /** A digit is marked in the union of three masks exactly when it is marked in one of them. */
  lemma HasUnion3(a: bv16, b: bv16, c: bv16, w: int)
    requires 1 <= w <= 9
    ensures Has(a | b | c, w) <==> Has(a, w) || Has(b, w) || Has(c, w)
  {
    HasUnion(a | b, c, w);
    HasUnion(a, b, w);
  }

  /** The bit of `v` marks `v` and no other digit. */
  lemma BitsDisjoint(v: int, w: int)
    requires 1 <= v <= 9 && 1 <= w <= 9
    ensures Has(Bit(v), w) <==> v == w
  {
    HasIsAnd(Bit(v), w);
    BitIsShift(v);
    BitIsShift(w);
    if v == 1 {} else if v == 2 {} else if v == 3 {} else if v == 4 {} else if v == 5 {}
    else if v == 6 {} else if v == 7 {} else if v == 8 {} else {}
  }

  /** Setting the bit of `v` marks `v` and leaves every other digit as it was. */
  lemma HasSet(m: bv16, v: int, w: int)
    requires 1 <= v <= 9 && 1 <= w <= 9
    ensures Has(m | Bit(v), w) <==> Has(m, w) || v == w
  {
    HasUnion(m, Bit(v), w);
    BitsDisjoint(v, w);
  }

  /** Setting a digit bit keeps bits 9..15 clear. */
  lemma OnlyDigitBitsSet(m: bv16, v: int)
    requires 1 <= v <= 9 && OnlyDigitBits(m)
    ensures OnlyDigitBits(m | Bit(v))
  {
    BitIsShift(v);
    if v == 1 {} else if v == 2 {} else if v == 3 {} else if v == 4 {} else if v == 5 {}
    else if v == 6 {} else if v == 7 {} else if v == 8 {} else {}
  }

  /** A mask with only digit bits is fixed by the digits it marks. */
  lemma MaskDetermined(m: bv16, m': bv16)
    requires OnlyDigitBits(m) && OnlyDigitBits(m')
    requires forall v :: 1 <= v <= 9 ==> (Has(m, v) <==> Has(m', v))
    ensures m == m'
  {
    forall v | 1 <= v <= 9 ensures (m & Bit(v) != 0) <==> (m' & Bit(v) != 0) {
      HasIsAnd(m, v);
      HasIsAnd(m', v);
    }
    BitIsShift(1); BitIsShift(2); BitIsShift(3); BitIsShift(4); BitIsShift(5);
    BitIsShift(6); BitIsShift(7); BitIsShift(8); BitIsShift(9);
    SameDigitBits(m, m');
  }

  /** Two words that agree on bits 0..8 and have bits 9..15 clear are equal. */
  lemma SameDigitBits(m: bv16, m': bv16)
    requires m & 0xFE00 == 0 && m' & 0xFE00 == 0
    requires (m & 1 != 0 <==> m' & 1 != 0) && (m & 2 != 0 <==> m' & 2 != 0) && (m & 4 != 0 <==> m' & 4 != 0)
    requires (m & 8 != 0 <==> m' & 8 != 0) && (m & 16 != 0 <==> m' & 16 != 0) && (m & 32 != 0 <==> m' & 32 != 0)
    requires (m & 64 != 0 <==> m' & 64 != 0) && (m & 128 != 0 <==> m' & 128 != 0) && (m & 256 != 0 <==> m' & 256 != 0)
    ensures m == m'
  {
  }

  /** `masks'` is the nine masks `masks` with the bit of `v` set in mask k: the source's `masks[k] |= bit`. */
  predicate BitSet(masks: seq<bv16>, masks': seq<bv16>, k: nat, v: int)
    requires |masks| == 9 && k < 9 && 1 <= v <= 9
  {
    |masks'| == 9 && masks'[k] == masks[k] | Bit(v) &&
    forall j :: 0 <= j < 9 && j != k ==> masks'[j] == masks[j]
  }

  /** The nine masks with the bit of `v` set in mask k. */
  function SetBit(masks: seq<bv16>, k: nat, v: int): (r: seq<bv16>)
    requires |masks| == 9 && k < 9 && 1 <= v <= 9
    ensures BitSet(masks, r, k, v)
  {
    masks[k := masks[k] | Bit(v)]
  }
}
