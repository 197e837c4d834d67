/** Integer facts the word-level proofs lean on. Times, Quot and Rem are `*`, `/` and `%` by repeated addition
    and subtraction: definitions are built on them, so that a non-linear term enters a proof only where a lemma
    of this module brings it in. */
module Arith {

  function Times(a: nat, x: nat): nat {
    if a == 0 then 0 else x + Times(a - 1, x)
  }

  function Quot(x: nat, d: nat): nat
    requires d > 0
    decreases x
  {
    if x < d then 0 else 1 + Quot(x - d, d)
  }

  function Rem(x: nat, d: nat): (r: nat)
    requires d > 0
    ensures r < d
    decreases x
  {
    if x < d then x else Rem(x - d, d)
  }

  lemma {:induction false} TimesIs(a: nat, x: nat)
    ensures Times(a, x) == a * x
  {
    if a > 0 {
      TimesIs(a - 1, x);
      MulDist(x, a - 1, 1);
    }
  }

  /** Quot and Rem divide. */
  lemma {:induction false} QuotRem(x: nat, d: nat)
    requires d > 0
    ensures x == Quot(x, d) * d + Rem(x, d)
    decreases x
  {
    if x >= d {
      QuotRem(x - d, d);
      MulDist(d, Quot(x - d, d), 1);
    }
  }

  /** A quotient and remainder in range are Quot and Rem. */
  lemma {:induction false} QuotRemUnique(x: nat, d: nat, q: nat, r: nat)
    requires d > 0 && x == q * d + r && r < d
    ensures Quot(x, d) == q && Rem(x, d) == r
  {
    QuotRem(x, d);
    var q' := Quot(x, d);
    if q' < q {
      MulMono(q' + 1, q, d);
      MulDist(d, q', 1);
      assert false;
    } else if q < q' {
      MulMono(q + 1, q', d);
      MulDist(d, q, 1);
      assert false;
    }
  }

  /** They are Dafny's own quotient and remainder. */
  lemma {:induction false} QuotRemAreDivMod(x: nat, d: nat)
    requires d > 0
    ensures Quot(x, d) == x / d && Rem(x, d) == x % d
  {
    QuotRem(x, d);
    var q, r := x / d, x % d;
    assert x == d * q + r;
    QuotRemUnique(x, d, q, r);
  }

  lemma {:induction false} QuotLt(x: nat, d: nat, n: nat)
    requires d > 0 && x < n * d
    ensures Quot(x, d) < n
  {
    QuotRem(x, d);
    if Quot(x, d) >= n {
      MulMono(n, Quot(x, d), d);
      assert false;
    }
  }

  function Pow(b: nat, n: nat): (p: nat)
    ensures b > 0 ==> p > 0
  {
    if n == 0 then 1
    else
      var p := Times(b, Pow(b, n - 1));
      assert b > 0 ==> p > 0 by { TimesIs(b, Pow(b, n - 1)); }
      p
  }

  function Pow2(n: nat): (p: nat)
    ensures p > 0
  {
    Pow(2, n)
  }

  lemma {:induction false} PowStep(b: nat, n: nat)
    requires n > 0
    ensures Pow(b, n) == b * Pow(b, n - 1)
  {
    TimesIs(b, Pow(b, n - 1));
  }

  lemma {:induction false} PowAdd(b: nat, m: nat, n: nat)
    ensures Pow(b, m + n) == Pow(b, m) * Pow(b, n)
  {
    if m == 0 {
    } else {
      PowAdd(b, m - 1, n);
      PowStep(b, m);
      PowStep(b, m + n);
      MulAssoc(b, Pow(b, m - 1), Pow(b, n));
    }
  }

  lemma {:induction false} PowMonotone(b: nat, m: nat, n: nat)
    requires b > 0 && m <= n
    ensures Pow(b, m) <= Pow(b, n)
  {
    PowAdd(b, m, n - m);
    MulMono(1, Pow(b, n - m), Pow(b, m));
  }

  lemma {:induction false} Pow2StrictlyMonotone(m: nat, n: nat)
    requires m < n
    ensures 2 * Pow2(m) <= Pow2(n)
  {
    PowStep(2, m + 1);
    PowMonotone(2, m + 1, n);
  }

  lemma {:induction false} MulAssoc(a: int, b: int, c: int)
    ensures a * (b * c) == (a * b) * c
  {
  }

  lemma {:induction false} MulDist(a: int, b: int, c: int)
    ensures a * (b + c) == a * b + a * c
    ensures (b + c) * a == b * a + c * a
  {
  }

  lemma {:induction false} MulDistSub(a: int, b: int, c: int)
    ensures a * (b - c) == a * b - a * c
    ensures (b - c) * a == b * a - c * a
  {
  }

  lemma {:induction false} MulMono(a: int, b: int, c: int)
    requires a <= b && 0 <= c
    ensures a * c <= b * c && c * a <= c * b
  {
  }

  lemma {:induction false} MulStrictMono(a: int, b: int, c: int)
    requires a < b && 0 < c
    ensures a * c < b * c && c * a < c * b
  {
  }

  /** Cancelling a positive factor from an inequality. */
  lemma {:induction false} MulCancelLe(a: int, b: int, c: int)
    requires 0 < c && a * c < (b + 1) * c
    ensures a <= b
  {
    if a > b {
      MulMono(b + 1, a, c);
      assert false;
    }
  }
}
