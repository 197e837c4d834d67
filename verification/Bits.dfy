/** Bitwise operators on unsigned machine words, modelled on natural numbers bit by bit, and the arithmetic they
    amount to when the operands do not overlap. */
module Bits {
  import opened Arith

  function BitOr(x: nat, y: nat): nat
    decreases x + y
  {
    if x == 0 && y == 0 then 0
    else (if x % 2 == 1 || y % 2 == 1 then 1 else 0) + 2 * BitOr(x / 2, y / 2)
  }

  /** `x << k` in a word of w bits. */
  function ShiftLeft(w: nat, x: nat, k: nat): nat {
    Rem(Times(x, Pow2(k)), Pow2(w))
  }

  /** `x >> k`. */
  function ShiftRight(x: nat, k: nat): nat {
    Quot(x, Pow2(k))
  }

  lemma {:induction false} OrZero(x: nat)
    ensures BitOr(0, x) == x == BitOr(x, 0)
  {
    if x != 0 {
      OrZero(x / 2);
    }
  }

  /** Or-ing in bits above position k adds them. */
  lemma {:induction false} OrDisjoint(x: nat, y: nat, k: nat)
    requires x < Pow2(k)
    ensures BitOr(x, y * Pow2(k)) == x + y * Pow2(k) == BitOr(y * Pow2(k), x)
  {
    if k == 0 {
      OrZero(y);
    } else {
      var z := y * Pow2(k - 1);
      PowStep(2, k);
      assert y * Pow2(k) == 2 * z by { MulAssoc(2, y, Pow2(k - 1)); }
      OrDisjoint(x / 2, y, k - 1);
      OrStep(x, z);
    }
  }

  lemma {:induction false} OrStep(x: nat, z: nat)
    requires BitOr(x / 2, z) == x / 2 + z == BitOr(z, x / 2)
    ensures BitOr(x, 2 * z) == x + 2 * z == BitOr(2 * z, x)
  {
    assert (2 * z) / 2 == z && (2 * z) % 2 == 0;
  }
}
