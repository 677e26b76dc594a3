/**
 * The engine's 64-bit occupancy masks (Rust `u64`) and the bit operations
 * it performs on them, related to the set of positions of their set bits.
 *
 * The rest of the model represents a mask by that set (`Abs(m)`). This
 * module proves the representation exact: it is one-to-one, the zero mask
 * is the empty set, the decoder's update `m | (TopBit >> k)` inserts
 * position `63 - k`, the renderer's test `(m >> i) & 1 == 1` is membership,
 * and `&` is intersection.
 *
 * Inside this module bit positions are `bv6` values, so that
 * facts about a mask stay in the solver's bit-vector theory; an integer
 * position becomes a `bv6` through `ToPos`, which counts up one at a time.
 */
module Bits {

  /** 9223372036854775808, a one followed by 63 zeroes. */
  const TopBit: bv64 := 0x8000_0000_0000_0000

  /** Bit `i` of `m` is set: `(m >> i) & 1 == 1`, the renderer's test. */
  predicate Has(m: bv64, i: bv6)
  {
    (m >> i) & 1 == 1
  }

  /** The shift amount for integer `k`. */
  function ToPos(k: nat): (i: bv6)
    requires k < 64
    ensures i as int == k
    decreases k
  {
    if k == 0 then 0 else ToPos(k - 1) + 1
  }

  /** `TopBit >> k`, the mask the placement decoder ORs in at cursor `k`. */
  function FromTop(k: nat): bv64
    requires k < 64
  {
    TopBit >> ToPos(k)
  }

  /** The positions of the set bits of `m`. */
  ghost function Abs(m: bv64): set<nat>
  {
    set k: nat | k < 64 && Has(m, ToPos(k))
  }

  lemma ToPosOf(i: bv6)
    ensures ToPos(i as int) == i
  {
  }

  /** The renderer's bit test is membership in the position set. */
  lemma AbsHas(m: bv64, i: bv6)
    ensures i as int in Abs(m) <==> Has(m, i)
  {
    ToPosOf(i);
  }

  lemma TopIsOne(j: bv6)
    ensures TopBit >> j == 1 << (63 - j)
  {
  }

  lemma OneBit(s: bv6, i: bv6)
    ensures Has(1 << s, i) <==> i == s
  {
  }

  lemma Mirror(j: bv6, i: bv6)
    ensures i == 63 - j <==> i as int == 63 - j as int
  {
  }

  /** `TopBit >> k` has exactly one set bit, bit `63 - k`. */
  lemma FromTopBit(k: nat, i: bv6)
    requires k < 64
    ensures Has(FromTop(k), i) <==> i as int == 63 - k
  {
    TopIsOne(ToPos(k));
    OneBit(63 - ToPos(k), i);
    Mirror(ToPos(k), i);
  }

  lemma OrBit(a: bv64, b: bv64, i: bv6)
    ensures Has(a | b, i) <==> Has(a, i) || Has(b, i)
  {
  }

  lemma AndBit(a: bv64, b: bv64, i: bv6)
    ensures Has(a & b, i) <==> Has(a, i) && Has(b, i)
  {
  }

  lemma XorBit(a: bv64, b: bv64, i: bv6)
    ensures Has(a ^ b, i) <==> Has(a, i) != Has(b, i)
  {
  }

  lemma ZeroBit(i: bv6)
    ensures !Has(0, i)
  {
  }

  /** The decoder's update `m |= TopBit >> k` inserts position `63 - k`. */
  lemma AbsSetTop(m: bv64, k: nat)
    requires k < 64
    ensures Abs(m | FromTop(k)) == Abs(m) + {63 - k}
  {
    forall x: nat | x < 64
      ensures x in Abs(m | FromTop(k)) <==> x in Abs(m) || x == 63 - k
    {
      SetTopAt(m, k, ToPos(x));
    }
  }

  /** Bit `i` of `m | (TopBit >> k)`: the bits of `m` and bit `63 - k`. */
  lemma SetTopAt(m: bv64, k: nat, i: bv6)
    requires k < 64
    ensures Has(m | FromTop(k), i) <==> Has(m, i) || i as int == 63 - k
  {
    OrBit(m, FromTop(k), i);
    FromTopBit(k, i);
  }

  /** The zero mask has no set bit. */
  lemma AbsZero()
    ensures Abs(0) == {}
  {
    forall x: nat | x < 64
      ensures x !in Abs(0)
    {
      ZeroBit(ToPos(x));
    }
  }

  /** `TopBit >> k` on its own is the single position `63 - k`. */
  lemma AbsFromTop(k: nat)
    requires k < 64
    ensures Abs(FromTop(k)) == {63 - k}
  {
    assert 0 | FromTop(k) == FromTop(k);
    AbsSetTop(0, k);
    AbsZero();
  }

  /** `&` on masks is intersection of position sets. */
  lemma AbsAnd(a: bv64, b: bv64)
    ensures Abs(a & b) == Abs(a) * Abs(b)
  {
    forall x: nat | x < 64
      ensures x in Abs(a & b) <==> x in Abs(a) && x in Abs(b)
    {
      AndBit(a, b, ToPos(x));
    }
  }

  /** Two masks share no position exactly when their `&` is zero. */
  lemma DisjointAndZero(a: bv64, b: bv64)
    ensures Abs(a) * Abs(b) == {} <==> a & b == 0
  {
    AbsAnd(a, b);
    AbsZero();
    AbsInjective(a & b, 0);
  }

  lemma ShiftStep(m: bv64, j: bv6)
    requires j < 63
    requires m >> (j + 1) == 0
    requires !Has(m, j)
    ensures m >> j == 0
  {
  }

  lemma ShiftLast(m: bv64)
    requires !Has(m, 63)
    ensures m >> (63 as bv6) == 0
  {
  }

  /** A mask with no set bit at or above `k`, shifted right by `k`, is zero. */
  lemma {:induction false} NoBitsFrom(m: bv64, k: nat)
    requires k < 64
    requires forall i: bv6 :: i as int >= k ==> !Has(m, i)
    ensures m >> ToPos(k) == 0
    decreases 63 - k
  {
    if k == 63 {
      ShiftLast(m);
    } else {
      NoBitsFrom(m, k + 1);
      ShiftStep(m, ToPos(k));
    }
  }

  lemma XorZero(a: bv64, b: bv64)
    requires a ^ b == 0
    ensures a == b
  {
  }

  /** A mask is determined by its position set. */
  lemma AbsInjective(a: bv64, b: bv64)
    ensures Abs(a) == Abs(b) <==> a == b
  {
    if Abs(a) == Abs(b) {
      var d := a ^ b;
      forall i: bv6
        ensures !Has(d, i)
      {
        XorBit(a, b, i);
        AbsHas(a, i);
        AbsHas(b, i);
      }
      NoBitsFrom(d, 0);
      XorZero(a, b);
    }
  }
}
