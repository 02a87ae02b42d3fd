/**
 * Unsigned machine words as natural numbers.
 *
 * A word of the storage type BaseT (8, 16, 32 or 64 bits wide) is a natural
 * number below 2^width.  The three bitwise operators the bitmap uses on its
 * words -- `|`, `&` and the complement `~` of a width-bit unsigned value --
 * are defined here on naturals, and each is proved against `TestBit`, the
 * plain meaning of "bit j of x".
 */
module Bits {

  /** 2^k, the value of `static_cast<BaseT>(1) << k`. */
  function Pow2(k: nat): (r: nat)
    ensures r > 0
  {
    if k == 0 then 1 else 2 * Pow2(k - 1)
  }

  /** Bit j of x: the j-th binary digit, counted from the least significant. */
  predicate TestBit(x: nat, j: nat)
  {
    if j == 0 then x % 2 == 1 else TestBit(x / 2, j - 1)
  }

  /** Bitwise OR, the `|` operator. */
  function Or(x: nat, y: nat): nat
    decreases x + y
  {
    if x == 0 && y == 0 then 0
    else 2 * Or(x / 2, y / 2) + (if x % 2 == 1 || y % 2 == 1 then 1 else 0)
  }

  /** Bitwise AND, the `&` operator. */
  function And(x: nat, y: nat): nat
    decreases x
  {
    if x == 0 || y == 0 then 0
    else 2 * And(x / 2, y / 2) + (if x % 2 == 1 && y % 2 == 1 then 1 else 0)
  }

  /** The complement `~x` of an unsigned value of the given bit width. */
  function Complement(x: nat, width: nat): (r: nat)
    requires x < Pow2(width)
    ensures r < Pow2(width)
  {
    Pow2(width) - 1 - x
  }

  /** `x |= 1 << k` */
  function SetBit(x: nat, k: nat): nat
  {
    Or(x, Pow2(k))
  }

  /** `x &= ~(1 << k)` on a word of the given width. */
  function ClearBit(x: nat, k: nat, width: nat): nat
    requires k < width
  {
    Pow2Monotone(k, width);
    And(x, Complement(Pow2(k), width))
  }

  /** `(x & (1 << k)) != 0` */
  predicate ReadBit(x: nat, k: nat)
  {
    And(x, Pow2(k)) != 0
  }

  // ---------------------------------------------------------------------
  // Facts about powers of two and single bits

  lemma {:induction false} Pow2Monotone(k: nat, width: nat)
    requires k < width
    ensures Pow2(k) < Pow2(width)
  {
    if k + 1 < width {
      Pow2Monotone(k, width - 1);
    }
  }

  lemma {:induction false} TestBitZero(j: nat)
    ensures !TestBit(0, j)
  {
    if j > 0 {
      TestBitZero(j - 1);
    }
  }

  /** 2^k has exactly bit k set. */
  lemma {:induction false} TestBitPow2(k: nat, j: nat)
    ensures TestBit(Pow2(k), j) <==> j == k
  {
    if j == 0 {
    } else if k == 0 {
      TestBitZero(j - 1);
    } else {
      TestBitPow2(k - 1, j - 1);
    }
  }

  /** A value below 2^width has no bit at or above position width. */
  lemma {:induction false} TestBitAboveWidth(x: nat, width: nat, j: nat)
    requires x < Pow2(width) && width <= j
    ensures !TestBit(x, j)
  {
    if width == 0 {
      TestBitZero(j);
    } else {
      TestBitAboveWidth(x / 2, width - 1, j - 1);
    }
  }

  // ---------------------------------------------------------------------
  // The operators, bit by bit

  lemma {:induction false} TestBitOr(x: nat, y: nat, j: nat)
    ensures TestBit(Or(x, y), j) <==> TestBit(x, j) || TestBit(y, j)
    decreases x + y
  {
    if x == 0 && y == 0 {
      TestBitZero(j);
    } else if j > 0 {
      TestBitOr(x / 2, y / 2, j - 1);
    }
  }

  lemma {:induction false} TestBitAnd(x: nat, y: nat, j: nat)
    ensures TestBit(And(x, y), j) <==> TestBit(x, j) && TestBit(y, j)
    decreases x
  {
    if x == 0 || y == 0 {
      TestBitZero(j);
    } else if j > 0 {
      TestBitAnd(x / 2, y / 2, j - 1);
    }
  }

  lemma {:induction false} TestBitComplement(x: nat, width: nat, j: nat)
    requires x < Pow2(width) && j < width
    ensures TestBit(Complement(x, width), j) <==> !TestBit(x, j)
  {
    var c := Complement(x, width);
    assert c == 2 * (Pow2(width - 1) - 1 - x / 2) + (1 - x % 2);
    if j > 0 {
      TestBitComplement(x / 2, width - 1, j - 1);
    }
  }

  /** OR keeps a value inside its width. */
  lemma {:induction false} OrBelow(x: nat, y: nat, width: nat)
    requires x < Pow2(width) && y < Pow2(width)
    ensures Or(x, y) < Pow2(width)
    decreases x + y
  {
    if !(x == 0 && y == 0) {
      OrBelow(x / 2, y / 2, width - 1);
    }
  }

  /** AND never exceeds its left operand. */
  lemma {:induction false} AndAtMost(x: nat, y: nat)
    ensures And(x, y) <= x
    decreases x
  {
    if x != 0 && y != 0 {
      AndAtMost(x / 2, y / 2);
    }
  }

  /** Masking with 2^k leaves 2^k when bit k is set and 0 otherwise. */
  lemma {:induction false} AndPow2(x: nat, k: nat)
    ensures And(x, Pow2(k)) == if TestBit(x, k) then Pow2(k) else 0
  {
    if x == 0 {
      TestBitZero(k);
    } else if k > 0 {
      AndPow2(x / 2, k - 1);
    }
  }

  // ---------------------------------------------------------------------
  // The three word operations of the bitmap

  /** `x |= 1 << k` sets bit k and leaves every other bit as it was. */
  lemma SetBitMeaning(x: nat, k: nat, j: nat)
    ensures TestBit(SetBit(x, k), j) <==> j == k || TestBit(x, j)
  {
    TestBitOr(x, Pow2(k), j);
    TestBitPow2(k, j);
  }

  /** `x |= 1 << k` keeps a word of the given width within that width. */
  lemma SetBitBelow(x: nat, k: nat, width: nat)
    requires x < Pow2(width) && k < width
    ensures SetBit(x, k) < Pow2(width)
  {
    Pow2Monotone(k, width);
    OrBelow(x, Pow2(k), width);
  }

  /** `x &= ~(1 << k)` clears bit k and leaves every other bit as it was. */
  lemma ClearBitMeaning(x: nat, k: nat, width: nat, j: nat)
    requires x < Pow2(width) && k < width
    ensures TestBit(ClearBit(x, k, width), j) <==> j != k && TestBit(x, j)
  {
    Pow2Monotone(k, width);
    var mask := Complement(Pow2(k), width);
    TestBitAnd(x, mask, j);
    if j < width {
      TestBitComplement(Pow2(k), width, j);
      TestBitPow2(k, j);
    } else {
      TestBitAboveWidth(x, width, j);
    }
  }

  /** `x &= ~(1 << k)` never makes a word larger. */
  lemma ClearBitAtMost(x: nat, k: nat, width: nat)
    requires k < width
    ensures ClearBit(x, k, width) <= x
  {
    Pow2Monotone(k, width);
    AndAtMost(x, Complement(Pow2(k), width));
  }

  /** `(x & (1 << k)) != 0` reads exactly bit k. */
  lemma ReadBitMeaning(x: nat, k: nat)
    ensures ReadBit(x, k) <==> TestBit(x, k)
  {
    AndPow2(x, k);
  }
}
