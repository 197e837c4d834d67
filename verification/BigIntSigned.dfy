/** Integers modulo the size of a storage, and the signs of a product (`baseline_mul` in AK/BigIntBase.h). */
module BigIntSigned {
  import opened Arith
  import opened BigIntWords

  ghost predicate DiffersBy(x: int, y: int, m: int, k: int) {
    x == y + k * m
  }

  /** x and y differ by a multiple of m. */
  ghost predicate Congruent(x: int, y: int, m: int) {
    exists k: int :: DiffersBy(x, y, m, k)
  }

  lemma {:induction false} CongruentBy(x: int, y: int, m: int, k: int)
    requires x == y + k * m
    ensures Congruent(x, y, m)
  {
    assert DiffersBy(x, y, m, k);
  }

  lemma {:induction false} CongruentTrans(x: int, y: int, z: int, m: int)
    requires Congruent(x, y, m) && Congruent(y, z, m)
    ensures Congruent(x, z, m)
  {
    var k: int :| DiffersBy(x, y, m, k);
    var l: int :| DiffersBy(y, z, m, l);
    MulDist(m, k, l);
    CongruentBy(x, z, m, k + l);
  }

  lemma {:induction false} CongruentNegated(x: int, y: int, m: int)
    requires Congruent(x, y, m)
    ensures Congruent(-x, -y, m)
  {
    var k: int :| DiffersBy(x, y, m, k);
    CongruentBy(-x, -y, m, -k);
  }

  lemma {:induction false} CongruentTimes(x: int, y: int, z: int, m: int)
    requires Congruent(x, y, m)
    ensures Congruent(x * z, y * z, m) && Congruent(z * x, z * y, m)
  {
    var k: int :| DiffersBy(x, y, m, k);
    MulDist(z, y, k * m);
    MulAssoc(z, k, m);
    CongruentBy(x * z, y * z, m, z * k);
    CongruentBy(z * x, z * y, m, z * k);
  }

  lemma {:induction false} CongruentProduct(x1: int, y1: int, x2: int, y2: int, m: int)
    requires Congruent(x1, y1, m) && Congruent(x2, y2, m)
    ensures Congruent(x1 * x2, y1 * y2, m)
  {
    CongruentTimes(x1, y1, x2, m);
    CongruentTimes(x2, y2, y1, m);
    CongruentTrans(x1 * x2, y1 * x2, y1 * y2, m);
  }

  lemma {:induction false} RemCongruent(x: nat, m: nat)
    requires m > 0
    ensures Congruent(Rem(x, m), x, m)
  {
    QuotRem(x, m);
    CongruentBy(Rem(x, m), x, m, 0 - Quot(x, m));
  }

  /** Within the modulus, a number is congruent to zero only if it is zero. */
  lemma {:induction false} CongruentToZero(x: int, m: int)
    requires -m < x < m && Congruent(x, 0, m)
    ensures x == 0
  {
    var k: int :| DiffersBy(x, 0, m, k);
    if k > 0 {
      MulMono(1, k, m);
    } else if k < 0 {
      MulMono(k, -1, m);
    }
  }

  lemma {:induction false} CongruentDifference(x: int, y: int, m: int)
    ensures Congruent(x, y, m) <==> Congruent(x - y, 0, m)
  {
    if Congruent(x, y, m) {
      var k: int :| DiffersBy(x, y, m, k);
      CongruentBy(x - y, 0, m, k);
    }
    if Congruent(x - y, 0, m) {
      var k: int :| DiffersBy(x - y, 0, m, k);
      CongruentBy(x, y, m, k);
    }
  }

  /** Numbers below the modulus that agree modulo it are equal. */
  lemma {:induction false} CongruentIsRem(v: nat, x: nat, m: nat)
    requires v < m && Congruent(v, x, m)
    ensures v == Rem(x, m)
  {
    RemCongruent(x, m);
    var k: int :| DiffersBy(v, x, m, k);
    var l: int :| DiffersBy(Rem(x, m), x, m, l);
    MulDistSub(m, k, l);
    CongruentBy(v - Rem(x, m), 0, m, k - l);
    CongruentToZero(v - Rem(x, m), m);
  }

  // ---- words ----

  /** A storage of at least n words and its integer agree in n words. */
  lemma {:induction false} IntegerCongruent(b: nat, s: seq<nat>, signed: bool, n: nat)
    requires b > 1 && 0 < |s| && n <= |s|
    ensures Congruent(Value(b, s), Integer(b, s, signed), Pow(b, n))
  {
    PowAdd(b, |s| - n, n);
    CongruentBy(Value(b, s), Integer(b, s, signed), Pow(b, n),
                if IsNegative(b, s, signed) then Pow(b, |s| - n) else 0);
  }

  /** `out` holds the product of the two integers modulo its size. */
  ghost predicate IsSignedProduct(b: nat, s1: seq<nat>, signed1: bool, s2: seq<nat>, signed2: bool, out: seq<nat>)
    requires b > 1 && |s1| > 0 && |s2| > 0
  {
    Congruent(Value(b, out), Integer(b, s1, signed1) * Integer(b, s2, signed2), Pow(b, |out|))
  }

  /** Operands at least as long as the result need no care for their signs. */
  lemma {:induction false} LongOperands(b: nat, s1: seq<nat>, signed1: bool, s2: seq<nat>, signed2: bool, out: seq<nat>)
    requires b > 1 && 0 < |s1| && 0 < |s2| && |out| <= |s1| && |out| <= |s2|
    requires Value(b, out) == Rem(Value(b, s1) * Value(b, s2), Pow(b, |out|))
    ensures IsSignedProduct(b, s1, signed1, s2, signed2, out)
  {
    var m := Pow(b, |out|);
    IntegerCongruent(b, s1, signed1, |out|);
    IntegerCongruent(b, s2, signed2, |out|);
    CongruentProduct(Value(b, s1), Integer(b, s1, signed1), Value(b, s2), Integer(b, s2, signed2), m);
    RemCongruent(Value(b, s1) * Value(b, s2), m);
    CongruentTrans(Value(b, out), Value(b, s1) * Value(b, s2), Integer(b, s1, signed1) * Integer(b, s2, signed2), m);
  }

  /** The integer without its sign. */
  ghost function Magnitude(b: nat, s: seq<nat>, signed: bool): int
    requires |s| > 0 && b > 1
  {
    var x := Integer(b, s, signed);
    if IsNegative(b, s, signed) then -x else x
  }

  /** The product of the magnitudes, negated when the signs differ. */
  lemma {:induction false} MagnitudesMultiply(b: nat, s1: seq<nat>, signed1: bool, s2: seq<nat>, signed2: bool)
    requires b > 1 && |s1| > 0 && |s2| > 0
    ensures var p := Magnitude(b, s1, signed1) * Magnitude(b, s2, signed2);
            Integer(b, s1, signed1) * Integer(b, s2, signed2)
              == if IsNegative(b, s1, signed1) != IsNegative(b, s2, signed2) then -p else p
  {
  }

  /** What negating modulo m gives. */
  lemma {:induction false} NegatedCongruent(v: nat, v': nat, x: int, m: nat, nonzero: bool)
    requires Congruent(v, x, m) && v' + v == Weigh(nonzero, m)
    ensures Congruent(v', -x, m)
  {
    CongruentNegated(v, x, m);
    CongruentBy(v', 0 - v, m, ToInt(nonzero));
    CongruentTrans(v', 0 - v, -x, m);
  }

  // ---- two single words ----

  /** When the one-word product of `baseline_mul` is right: it multiplies the words without their signs, which shows
      from the second word of the result on. x and y are the words, and `negative1` and `negative2` their signs. */
  predicate SingleWordsRight(b: nat, x: nat, negative1: bool, y: nat, negative2: bool, size: nat) {
    || size == 1
    || (!negative1 && !negative2)
    || (negative1 && negative2 && x + y == b)
    || (negative1 != negative2 && size == 2 && (if negative1 then y else x) == 0)
  }

  /** What the result is off by. */
  lemma {:induction false} SingleWordsOff(b: int, m: int, x: int, negative1: bool, y: int, negative2: bool)
    ensures var v := x * y + Weigh(negative1 != negative2, m - b * b);
            v - (x - Weigh(negative1, b)) * (y - Weigh(negative2, b))
              == (if negative1 && negative2 then b * (x + y - b)
                  else if negative1 then m - b * (b - y) else if negative2 then m - b * (b - x) else 0)
  {
    if negative1 && negative2 {
      MulDistSub(x - b, y, b);
      MulDistSub(y, x, b);
      MulDistSub(b, x, b);
      MulDistSub(b, x + y, b);
      MulDist(b, x, y);
    } else if negative1 {
      MulDistSub(y, x, b);
      MulDistSub(b, b, y);
    } else if negative2 {
      MulDistSub(x, y, b);
      MulDistSub(b, b, x);
    }
  }

  lemma {:induction false} LargerPower(b: nat, n: nat)
    requires b > 1 && n > 2
    ensures b * b < Pow(b, n)
  {
    PowStep(b, 1);
    PowStep(b, 2);
    PowStep(b, 3);
    MulStrictMono(1, b, b * b);
    PowMonotone(b, 3, n);
  }

  /** A multiple of b below b squared, taken from m. */
  lemma {:induction false} OffByMultiple(b: nat, n: nat, y: nat)
    requires b > 1 && n >= 2 && y < b
    ensures Congruent(Pow(b, n) - b * (b - y), 0, Pow(b, n)) <==> n == 2 && y == 0
  {
    var m, d := Pow(b, n), b * (b - y);
    PowStep(b, 2);
    PowStep(b, 1);
    assert 0 < d <= b * b by {
      MulMono(1, b - y, b);
      MulMono(b - y, b, b);
    }
    PowMonotone(b, 2, n);
    if n == 2 && y == 0 {
      CongruentBy(m - d, 0, m, 0);
    } else {
      assert 0 < m - d < m by {
        if n > 2 {
          LargerPower(b, n);
        } else {
          MulStrictMono(b - y, b, b);
        }
      }
      if Congruent(m - d, 0, m) {
        CongruentToZero(m - d, m);
      }
    }
  }

  lemma {:induction false} OffByBoth(b: nat, n: nat, x: nat, y: nat)
    requires b > 1 && n >= 2 && x < b && y < b && b <= x + y
    ensures Congruent(b * (x + y - b), 0, Pow(b, n)) <==> x + y == b
  {
    var m, d := Pow(b, n), b * (x + y - b);
    PowStep(b, 2);
    PowStep(b, 1);
    PowMonotone(b, 2, n);
    MulStrictMono(x + y - b, b, b);
    MulMono(0, x + y - b, b);
    if Congruent(d, 0, m) {
      CongruentToZero(d, m);
      if x + y > b {
        MulMono(1, x + y - b, b);
      }
    } else if x + y == b {
      CongruentBy(d, 0, m, 0);
    }
  }

  /** The condition is exact, for results of two words and more. */
  lemma {:induction false} SingleWordsExact(b: nat, x: nat, negative1: bool, y: nat, negative2: bool, n: nat, v: int)
    requires b > 1 && x < b && y < b && n >= 2 && (negative1 && negative2 ==> b <= x + y)
    requires v == x * y + Weigh(negative1 != negative2, Pow(b, n) - b * b)
    ensures Congruent(v, (x - Weigh(negative1, b)) * (y - Weigh(negative2, b)), Pow(b, n))
      <==> SingleWordsRight(b, x, negative1, y, negative2, n)
  {
    var m, p := Pow(b, n), (x - Weigh(negative1, b)) * (y - Weigh(negative2, b));
    SingleWordsOff(b, m, x, negative1, y, negative2);
    CongruentDifference(v, p, m);
    if negative1 && negative2 {
      OffByBoth(b, n, x, y);
    } else if negative1 {
      OffByMultiple(b, n, y);
    } else if negative2 {
      OffByMultiple(b, n, x);
    } else {
      CongruentBy(0, 0, m, 0);
    }
  }

  /** In one word the signs do not matter. */
  lemma {:induction false} LowWordRight(b: nat, x: nat, negative1: bool, y: nat, negative2: bool, low: nat, high: nat)
    requires b > 1 && x * y == low + high * b
    ensures Congruent(low, (x - Weigh(negative1, b)) * (y - Weigh(negative2, b)), b)
  {
    CongruentBy(low, x * y, b, 0 - high);
    CongruentBy(x, x - Weigh(negative1, b), b, ToInt(negative1));
    CongruentBy(y, y - Weigh(negative2, b), b, ToInt(negative2));
    CongruentProduct(x, x - Weigh(negative1, b), y, y - Weigh(negative2, b), b);
    CongruentTrans(low, x * y, (x - Weigh(negative1, b)) * (y - Weigh(negative2, b)), b);
  }
}
