/**
 Bit tests, sets and clears on non-negative machine words, as the kernel's
 bitmap helpers perform them with shifts and masks.  A word is an integer and
 its bits are read by halving; `PowerOfTwo` ties the updates to `1 << k`.
 */
module Bits {
  import opened Arith

  function PowerOfTwo(k: nat): (p: nat)
    ensures p > 0
  {
    if k == 0 then 1 else 2 * PowerOfTwo(k - 1)
  }

  /** `(x >> k) & 1` */
  predicate Bit(x: nat, k: nat) {
    if k == 0 then x % 2 == 1 else Bit(x / 2, k - 1)
  }

  /** `x | (1 << k)` */
  function SetBit(x: nat, k: nat): nat {
    if Bit(x, k) then x else x + PowerOfTwo(k)
  }

  /** `x & ~(1 << k)` */
  function ClearBit(x: nat, k: nat): nat {
    BitIsWorth(x, k);
    if Bit(x, k) then x - PowerOfTwo(k) else x
  }

  lemma {:induction false} BitIsWorth(x: nat, k: nat)
    ensures Bit(x, k) ==> PowerOfTwo(k) <= x
  {
    if k > 0 {
      BitIsWorth(x / 2, k - 1);
    }
  }

  lemma {:induction false} BitIsDigit(x: nat, k: nat)
    ensures Bit(x, k) <==> x / PowerOfTwo(k) % 2 == 1
  {
    if k > 0 {
      BitIsDigit(x / 2, k - 1);
      HalfFirst(x, PowerOfTwo(k - 1));
    }
  }

  lemma HalfFirst(x: nat, n: nat)
    requires n > 0
    ensures x / 2 / n == x / (2 * n)
  {
    DivMod(x / 2, n);
    DivModUnique(x, 2 * n, x / 2 / n, x / 2 % n * 2 + x % 2);
  }

  /** Setting bit k sets that bit, keeps every other one and stays within the word. */
  lemma {:induction false} SetBitMeaning(x: nat, k: nat, width: nat)
    requires k < width && x < PowerOfTwo(width)
    ensures SetBit(x, k) < PowerOfTwo(width)
    ensures forall j: nat :: Bit(SetBit(x, k), j) == (j == k || Bit(x, j))
  {
    if k > 0 {
      SetBitMeaning(x / 2, k - 1, width - 1);
      assert SetBit(x, k) / 2 == SetBit(x / 2, k - 1);
      assert SetBit(x, k) % 2 == x % 2;
    } else {
      assert SetBit(x, k) / 2 == x / 2;
    }
    forall j: nat
      ensures Bit(SetBit(x, k), j) == (j == k || Bit(x, j))
    {
      if j > 0 {
        assert k > 0 ==> Bit(SetBit(x / 2, k - 1), j - 1) == (j == k || Bit(x / 2, j - 1));
      }
    }
  }

  /** Clearing bit k clears that bit, keeps every other one and stays within the word. */
  lemma {:induction false} ClearBitMeaning(x: nat, k: nat)
    ensures ClearBit(x, k) <= x
    ensures forall j: nat :: Bit(ClearBit(x, k), j) == (j != k && Bit(x, j))
  {
    BitIsWorth(x, k);
    if k > 0 {
      ClearBitMeaning(x / 2, k - 1);
      BitIsWorth(x / 2, k - 1);
      assert ClearBit(x, k) / 2 == ClearBit(x / 2, k - 1);
      assert ClearBit(x, k) % 2 == x % 2;
    } else {
      assert ClearBit(x, k) / 2 == x / 2;
    }
    forall j: nat
      ensures Bit(ClearBit(x, k), j) == (j != k && Bit(x, j))
    {
      if j > 0 {
        assert k > 0 ==> Bit(ClearBit(x / 2, k - 1), j - 1) == (j != k && Bit(x / 2, j - 1));
      }
    }
  }
}
