/** Machine words as sequences of bits, lowest first, with the operators of C++ on unsigned types of that width. */
module BitSeq {
  import opened Arith

  type Bits = seq<bool>

  function Zeros(n: nat): (r: Bits)
    ensures |r| == n && forall i | 0 <= i < n :: !r[i]
  {
    seq(n, _ => false)
  }

  function Ones(n: nat): (r: Bits)
    ensures |r| == n && forall i | 0 <= i < n :: r[i]
  {
    seq(n, _ => true)
  }

  function Or(a: Bits, b: Bits): (r: Bits)
    requires |a| == |b|
    ensures |r| == |a| && forall i | 0 <= i < |a| :: r[i] == (a[i] || b[i])
  {
    seq(|a|, i requires 0 <= i < |a| => a[i] || b[i])
  }

  function And(a: Bits, b: Bits): (r: Bits)
    requires |a| == |b|
    ensures |r| == |a| && forall i | 0 <= i < |a| :: r[i] == (a[i] && b[i])
  {
    seq(|a|, i requires 0 <= i < |a| => a[i] && b[i])
  }

  function Not(a: Bits): (r: Bits)
    ensures |r| == |a| && forall i | 0 <= i < |a| :: r[i] == !a[i]
  {
    seq(|a|, i requires 0 <= i < |a| => !a[i])
  }

  function ShiftLeft(a: Bits, k: nat): (r: Bits)
    ensures |r| == |a| && forall i | 0 <= i < |a| :: r[i] == (i >= k && a[i - k])
  {
    seq(|a|, i requires 0 <= i < |a| => i >= k && a[i - k])
  }

  function ShiftRight(a: Bits, k: nat): (r: Bits)
    ensures |r| == |a| && forall i | 0 <= i < |a| :: r[i] == (i + k < |a| && a[i + k])
  {
    seq(|a|, i requires 0 <= i < |a| => i + k < |a| && a[i + k])
  }

  /** `1 << k`. */
  function Bit(n: nat, k: nat): (r: Bits)
    ensures |r| == n && forall i | 0 <= i < n :: r[i] == (i == k)
  {
    seq(n, i => i == k)
  }

  /** A cast to another width. */
  function Cast(a: Bits, n: nat): (r: Bits)
    ensures |r| == n && forall i | 0 <= i < n :: r[i] == (i < |a| && a[i])
  {
    seq(n, i => 0 <= i < |a| && a[i])
  }

  lemma {:induction false} BitTest(a: Bits, k: nat)
    requires k < |a|
    ensures And(a, Bit(|a|, k)) == Zeros(|a|) <==> !a[k]
  {
    if a[k] {
      assert And(a, Bit(|a|, k))[k];
    }
  }

  // ---- the number a word stands for ----

  function Number(a: Bits): nat {
    if a == [] then 0 else (if a[0] then 1 else 0) + 2 * Number(a[1..])
  }

  /** A number is below 2^k exactly when the bits from k on are clear. */
  lemma {:induction false} BelowPow2(a: Bits, k: nat)
    ensures Number(a) < Pow2(k) <==> forall i | k <= i < |a| :: !a[i]
    decreases a
  {
    if a != [] {
      if k > 0 {
        PowStep(2, k);
        BelowPow2(a[1..], k - 1);
        assert forall i | k <= i < |a| :: a[i] == a[1..][i - 1];
        assert forall i | k - 1 <= i < |a[1..]| :: a[1..][i] == a[i + 1];
      } else {
        BelowPow2(a[1..], 0);
        assert forall i | 0 <= i < |a[1..]| :: a[1..][i] == a[i + 1];
        assert forall i | 1 <= i < |a| :: a[i] == a[1..][i - 1];
      }
    }
  }
}
