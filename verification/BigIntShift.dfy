/** In-place shifts of multi-word integers (`shift_left`, `shift_right` in AK/BigIntBase.h). */
module BigIntShift {
  import opened Arith
  import opened Bits
  import opened BigIntWords

  /** A word shifted left by r splits into what stays in the word and what leaves it at the top. */
  lemma {:induction false} ShiftSplit(w: nat, x: nat, r: nat)
    requires x < Pow2(w) && 0 < r < w
    ensures ShiftLeft(w, x, r) == Rem(x, Pow2(w - r)) * Pow2(r) < Pow2(w)
    ensures x * Pow2(r) == ShiftRight(x, w - r) * Pow2(w) + ShiftLeft(w, x, r)
    ensures ShiftRight(x, w - r) < Pow2(r)
  {
    var high, low, d, M := Quot(x, Pow2(w - r)), Rem(x, Pow2(w - r)), Pow2(w - r), Pow2(r);
    PowAdd(2, w - r, r);
    QuotRem(x, d);
    ShiftSplitIntegers(x, M, d, Pow2(w), high, low);
    TimesIs(x, M);
    TimesIs(low, M);
    QuotRemUnique(Times(x, M), Pow2(w), high, Times(low, M));
    QuotLt(x, d, M);
  }

  lemma {:induction false} ShiftSplitIntegers(x: int, M: int, d: int, W: int, high: int, low: int)
    requires W == d * M && x == high * d + low && 0 <= low < d && 0 < M
    ensures x * M == high * W + low * M && 0 <= low * M < W
  {
    MulDist(M, high * d, low);
    MulAssoc(high, d, M);
    MulStrictMono(low, d, M);
    MulMono(0, low, M);
  }

  /** The two halves of a shifted word do not overlap. */
  lemma {:induction false} JoinLeft(w: nat, x: nat, y: nat, r: nat)
    requires x < Pow2(w) && y < Pow2(w) && 0 < r < w
    ensures BitOr(ShiftLeft(w, x, r), ShiftRight(y, w - r)) == ShiftLeft(w, x, r) + ShiftRight(y, w - r) < Pow2(w)
  {
    ShiftSplit(w, x, r);
    ShiftSplit(w, y, r);
    OrDisjoint(ShiftRight(y, w - r), Rem(x, Pow2(w - r)), r);
    PowAdd(2, w - r, r);
    JoinBound(Rem(x, Pow2(w - r)), Pow2(w - r), Pow2(r), Pow2(w), ShiftRight(y, w - r));
  }

  lemma {:induction false} JoinBound(high: int, d: int, M: int, W: int, low: int)
    requires 0 <= high < d && W == d * M && 0 <= low < M
    ensures high * M + low < W
  {
    MulMono(high + 1, d, M);
    MulDist(M, high, 1);
  }

  lemma {:induction false} JoinRight(w: nat, x: nat, y: nat, r: nat)
    requires x < Pow2(w) && y < Pow2(w) && 0 < r < w
    ensures BitOr(ShiftRight(x, r), ShiftLeft(w, y, w - r)) == ShiftRight(x, r) + Rem(y, Pow2(r)) * Pow2(w - r) < Pow2(w)
  {
    ShiftSplit(w, x, w - r);
    ShiftSplit(w, y, w - r);
    OrDisjoint(ShiftRight(x, r), Rem(y, Pow2(r)), w - r);
    PowAdd(2, r, w - r);
    JoinBound(Rem(y, Pow2(r)), Pow2(r), Pow2(w - r), Pow2(w), ShiftRight(x, r));
  }

  // ---- left ----

  /** Word i of `shift_left`, for a shift by whole words and r bits. */
  ghost function LeftWord(w: nat, s: seq<nat>, offset: nat, r: nat, i: nat): nat
    requires r < w && i < |s|
  {
    if i < offset then 0
    else if r == 0 then s[i - offset]
    else if i == offset then ShiftLeft(w, s[0], r)
    else BitOr(ShiftLeft(w, s[i - offset], r), ShiftRight(s[i - offset - 1], w - r))
  }

  ghost predicate IsLeftShift(w: nat, s: seq<nat>, offset: nat, r: nat, out: seq<nat>)
    requires r < w
  {
    |out| == |s| && forall i | 0 <= i < |s| :: out[i] == LeftWord(w, s, offset, r, i)
  }

  lemma {:induction false} LeftWordBound(w: nat, s: seq<nat>, offset: nat, r: nat, i: nat)
    requires r < w && i < |s| && AreWords(Pow2(w), s)
    ensures LeftWord(w, s, offset, r, i) < Pow2(w)
  {
    if i > offset && r > 0 {
      JoinLeft(w, s[i - offset], s[i - offset - 1], r);
    } else if i == offset && r > 0 {
      ShiftSplit(w, s[0], r);
    }
  }

  /** What leaves the top of word k - 1 under a shift by r bits. */
  ghost function CarryOut(w: nat, s: seq<nat>, r: nat, k: nat): nat
    requires r < w && k <= |s|
  {
    if k == 0 || r == 0 then 0 else ShiftRight(s[k - 1], w - r)
  }

  lemma {:induction false} LeftWordEquation(w: nat, s: seq<nat>, offset: nat, r: nat, k: nat)
    requires r < w && AreWords(Pow2(w), s) && 0 < k && offset + k <= |s|
    ensures LeftWord(w, s, offset, r, offset + k - 1) + CarryOut(w, s, r, k) * Pow2(w)
         == s[k - 1] * Pow2(r) + CarryOut(w, s, r, k - 1)
  {
    if r > 0 {
      ShiftSplit(w, s[k - 1], r);
      if k > 1 {
        JoinLeft(w, s[k - 1], s[k - 2], r);
      }
    }
  }

  /** The shifted words with the carry beyond them are the value times 2^r. */
  lemma {:induction false} LeftPrefix(w: nat, s: seq<nat>, offset: nat, r: nat, out: seq<nat>, k: nat)
    requires r < w && AreWords(Pow2(w), s) && IsLeftShift(w, s, offset, r, out) && offset + k <= |s|
    ensures var b := Pow2(w);
            Value(b, out[offset..offset + k]) + CarryOut(w, s, r, k) * Pow(b, k) == Value(b, s[..k]) * Pow2(r)
  {
    var b := Pow2(w);
    if k == 0 {
      assert out[offset..offset] == [] && s[..0] == [];
    } else {
      var i := offset + k - 1;
      LeftPrefix(w, s, offset, r, out, k - 1);
      assert out[offset..offset + k] == out[offset..i] + [out[i]];
      LeftWordEquation(w, s, offset, r, k);
      LeftPrefixStep(b, Pow2(r), out[offset..i], CarryOut(w, s, r, k - 1), out[i], CarryOut(w, s, r, k), s, k - 1);
    }
  }

  lemma {:induction false} LeftPrefixStep(b: nat, m: nat, done: seq<nat>, c: nat, word: nat, c': nat, s: seq<nat>, k: nat)
    requires |done| == k < |s| && Value(b, done) + c * Pow(b, k) == Value(b, s[..k]) * m
    requires word + c' * b == s[k] * m + c
    ensures Value(b, done + [word]) + c' * Pow(b, k + 1) == Value(b, s[..k + 1]) * m
  {
    ValueAppend(b, done, word);
    ValueStep(b, s, k);
    PowStep(b, k + 1);
    LeftStep(Pow(b, k), b, m, Value(b, done), c, word, c', Value(b, s[..k]), s[k]);
  }

  lemma {:induction false} LeftStep(P: int, b: int, m: int, v: int, c: int, out: int, c': int, x: int, word: int)
    requires v + c * P == x * m
    requires out + c' * b == word * m + c
    ensures (v + out * P) + c' * (b * P) == (x + word * P) * m
  {
    calc {
      (v + out * P) + c' * (b * P);
    ==  { MulAssoc(c', b, P); }
      v + (out * P + (c' * b) * P);
    ==  { MulDist(P, out, c' * b); }
      v + (out + c' * b) * P;
    ==
      v + (word * m + c) * P;
    ==  { MulDist(P, word * m, c); }
      v + (word * m) * P + c * P;
    ==  { MulAssoc(word, m, P); MulAssoc(word, P, m); }
      x * m + (word * P) * m;
    ==  { MulDist(m, x, word * P); }
      (x + word * P) * m;
    }
  }

  /** The meaning of `shift_left`: multiplication by 2^shift modulo the size. */
  lemma {:induction false} LeftShiftValue(w: nat, s: seq<nat>, shift: nat, out: seq<nat>)
    requires w > 0 && AreWords(Pow2(w), s) && shift < |s| * w
    requires IsLeftShift(w, s, Quot(shift, w), Rem(shift, w), out)
    ensures Value(Pow2(w), out) == Rem(Value(Pow2(w), s) * Pow2(shift), Pow(Pow2(w), |s|))
  {
    var b, n, offset, r := Pow2(w), |s|, Quot(shift, w), Rem(shift, w);
    QuotLt(shift, w, n);
    var k := n - offset;
    var low := out[offset..];
    assert low == out[offset..offset + k];
    LeftPrefix(w, s, offset, r, out, k);
    ValueSplit(b, out, offset);
    ValueZeros(b, out[..offset]);
    ValueSplit(b, s, k);
    PowOfShift(w, shift);
    PowAdd(b, k, offset);
    TimesIs(Value(b, s[k..]), Pow2(r));
    TimesIs(Value(b, s), Pow2(shift));
    LeftWhole(Pow(b, k), Pow(b, offset), Pow2(r), Value(b, low), CarryOut(w, s, r, k), Value(b, s[..k]), Value(b, s[k..]));
    LeftShiftIsWords(w, s, offset, r, out);
    ValueBound(b, out);
    QuotRemUnique(Times(Value(b, s), Pow2(shift)), Pow(b, n), CarryOut(w, s, r, k) + Times(Value(b, s[k..]), Pow2(r)), Value(b, out));
  }

  lemma {:induction false} LeftWhole(K: int, O: int, m: int, low: int, carry: int, x: int, high: int)
    requires low + carry * K == x * m
    ensures (x + K * high) * (O * m) == (carry + high * m) * (K * O) + O * low
  {
    calc {
      (x + K * high) * (O * m);
    ==
      (x + K * high) * (m * O);
    ==  { MulAssoc(x + K * high, m, O); MulDist(m, x, K * high); }
      (x * m + (K * high) * m) * O;
    ==  { MulAssoc(K, high, m); }
      (low + carry * K + K * (high * m)) * O;
    ==  { MulDist(K, carry, high * m); }
      (low + (carry + high * m) * K) * O;
    ==  { MulDist(O, low, (carry + high * m) * K); MulAssoc(carry + high * m, K, O); }
      low * O + (carry + high * m) * (K * O);
    }
  }

  /** 2^shift counts whole words and bits. */
  lemma {:induction false} PowOfShift(w: nat, shift: nat)
    requires w > 0
    ensures Pow2(shift) == Pow(Pow2(w), Quot(shift, w)) * Pow2(Rem(shift, w))
  {
    var q, r := Quot(shift, w), Rem(shift, w);
    PowOfWords(w, q);
    assert shift == w * q + r by { QuotRem(shift, w); }
    PowAdd(2, w * q, r);
  }

  lemma {:induction false} PowOfWords(w: nat, k: nat)
    ensures Pow2(w * k) == Pow(Pow2(w), k)
  {
    if k > 0 {
      PowOfWords(w, k - 1);
      PowStep(Pow2(w), k);
      MulDist(w, k - 1, 1);
      PowAdd(2, w, w * (k - 1));
    }
  }

  /** Word i of `shift_left`, read from the operand. */
  method ReadLeftWord(w: nat, operand: Span, offset: nat, r: nat, i: nat, ghost s: seq<nat>) returns (word: nat)
    requires r < w && operand.InBounds() && |s| == operand.size && offset <= i < |s|
    requires forall k | operand.start <= k <= operand.start + i - offset :: operand.data[k] == s[k - operand.start]
    ensures word == LeftWord(w, s, offset, r, i)
  {
    word := operand.data[operand.start + i - offset];
    if r != 0 {
      word := ShiftLeft(w, word, r);
      if i > offset {
        word := BitOr(word, ShiftRight(operand.data[operand.start + i - offset - 1], w - r));
      }
    }
  }

  /** The word loops of `shift_left`; words are written from the top down, so the result may be the
      operand's own storage. */
  method StoreLeftShift(w: nat, operand: Span, offset: nat, remainder: nat, result: Span)
    requires remainder < w && operand.InBounds() && result.InBounds()
    requires result.size == operand.size && offset < result.size && operand.Aligned(result)
    modifies result.data
    ensures SameOutside(result, old(result.data[..]))
    ensures IsLeftShift(w, old(operand.Words()), offset, remainder, result.Words())
  {
    ghost var s := operand.Words();
    StoreLeftLoop(w, operand, offset, remainder, result, s);
    ClearWords(result, 0, offset);
  }

  method StoreLeftLoop(w: nat, operand: Span, offset: nat, remainder: nat, result: Span, ghost s: seq<nat>)
    requires remainder < w && operand.InBounds() && result.InBounds() && s == operand.Words()
    requires result.size == operand.size && offset < result.size && operand.Aligned(result)
    modifies result.data
    ensures SameOutside(result, old(result.data[..]))
    ensures forall k | result.start + offset <= k < result.start + result.size
              :: result.data[k] == LeftWord(w, s, offset, remainder, k - result.start)
  {
    var i := result.size;
    while i > offset
      invariant offset <= i <= result.size
      invariant SameOutside(result, old(result.data[..]))
      invariant forall k | result.start <= k < result.start + i :: result.data[k] == old(result.data[k])
      invariant forall k | result.start + i <= k < result.start + result.size
                  :: result.data[k] == LeftWord(w, s, offset, remainder, k - result.start)
    {
      i := i - 1;
      var word := ReadLeftWord(w, operand, offset, remainder, i, s);
      result.data[result.start + i] := word;
    }
  }

  /** Zeroing words from..to of a storage. */
  method ClearWords(result: Span, from: nat, to: nat)
    requires result.InBounds() && from <= to <= result.size
    modifies result.data
    ensures forall k | 0 <= k < result.data.Length
              :: result.data[k] == if result.start + from <= k < result.start + to then 0 else old(result.data[k])
  {
    for j := from to to
      invariant forall k | 0 <= k < result.data.Length
                  :: result.data[k] == if result.start + from <= k < result.start + j then 0 else old(result.data[k])
    {
      result.data[result.start + j] := 0;
    }
  }

  lemma {:induction false} LeftShiftIsWords(w: nat, s: seq<nat>, offset: nat, r: nat, out: seq<nat>)
    requires r < w && AreWords(Pow2(w), s) && IsLeftShift(w, s, offset, r, out)
    ensures AreWords(Pow2(w), out)
  {
    forall k | 0 <= k < |s| ensures out[k] < Pow2(w) { LeftWordBound(w, s, offset, r, k); }
  }

  /** `shift_left`: multiplication by 2^shift modulo the storage size. */
  method ShiftLeftWords(w: nat, operand: Span, shift: nat, result: Span)
    requires w > 0 && operand.Valid(Pow2(w)) && result.InBounds()
    requires result.size == operand.size && shift < result.size * w && operand.Aligned(result)
    modifies result.data
    ensures result.Valid(Pow2(w)) && SameOutside(result, old(result.data[..]))
    ensures Value(Pow2(w), result.Words())
         == Rem(old(Value(Pow2(w), operand.Words())) * Pow2(shift), Pow(Pow2(w), result.size))
  {
    ghost var s := operand.Words();
    QuotLt(shift, w, operand.size);
    StoreLeftShift(w, operand, Quot(shift, w), Rem(shift, w), result);
    LeftShiftIsWords(w, s, Quot(shift, w), Rem(shift, w), result.Words());
    LeftShiftValue(w, s, shift, result.Words());
  }

  // ---- right ----

  /** Word i of `shift_right`. */
  ghost function RightWord(w: nat, s: seq<nat>, offset: nat, r: nat, i: nat): nat
    requires r < w && i < |s|
  {
    if i + offset >= |s| then 0
    else if r == 0 then s[i + offset]
    else if i + offset == |s| - 1 then ShiftRight(s[|s| - 1], r)
    else BitOr(ShiftRight(s[i + offset], r), ShiftLeft(w, s[i + offset + 1], w - r))
  }

  ghost predicate IsRightShift(w: nat, s: seq<nat>, offset: nat, r: nat, out: seq<nat>)
    requires r < w
  {
    |out| == |s| && forall i | 0 <= i < |s| :: out[i] == RightWord(w, s, offset, r, i)
  }

  lemma {:induction false} RightWordBound(w: nat, s: seq<nat>, offset: nat, r: nat, i: nat)
    requires r < w && i < |s| && AreWords(Pow2(w), s)
    ensures RightWord(w, s, offset, r, i) < Pow2(w)
  {
    if r > 0 && i + offset < |s| - 1 {
      JoinRight(w, s[i + offset], s[i + offset + 1], r);
    } else if r > 0 && i + offset == |s| - 1 {
      ShiftSplit(w, s[i + offset], w - r);
      Pow2StrictlyMonotone(w - r, w);
    }
  }

  /** Two neighbouring words of the operand make one word of the result. */
  lemma {:induction false} RightJoint(w: nat, x: nat, y: nat, r: nat)
    requires x < Pow2(w) && y < Pow2(w) && 0 < r < w
    ensures BitOr(ShiftRight(x, r), ShiftLeft(w, y, w - r)) * Pow2(r) == x - Rem(x, Pow2(r)) + Pow2(w) * Rem(y, Pow2(r))
  {
    var m, low := Pow2(r), Rem(y, Pow2(r));
    JoinRight(w, x, y, r);
    PowAdd(2, w - r, r);
    QuotRem(x, m);
    RightJointIntegers(x, m, Pow2(w - r), Pow2(w), ShiftRight(x, r), Rem(x, m), low);
  }

  lemma {:induction false} RightJointIntegers(x: int, m: int, A: int, W: int, high: int, rest: int, low: int)
    requires W == A * m && x == high * m + rest
    ensures (high + low * A) * m == x - rest + W * low
  {
    MulDist(m, high, low * A);
    MulAssoc(low, A, m);
  }

  lemma {:induction false} RightWordEquation(w: nat, s: seq<nat>, offset: nat, r: nat, i: nat)
    requires r < w && AreWords(Pow2(w), s) && i + offset + 1 < |s|
    ensures RightWord(w, s, offset, r, i) * Pow2(r)
         == s[i + offset] - Rem(s[i + offset], Pow2(r)) + Pow2(w) * Rem(s[i + offset + 1], Pow2(r))
  {
    if r > 0 {
      RightJoint(w, s[i + offset], s[i + offset + 1], r);
    }
  }

  lemma {:induction false} RightStep(b: int, m: int, word: int, low: int, nextLow: int, out: int, v: int)
    requires out * m == word - low + b * nextLow
    ensures word + b * (v * m + nextLow) == (out + b * v) * m + low
  {
    MulDist(m, out, b * v);
    MulAssoc(b, v, m);
    MulDist(b, v * m, nextLow);
  }

  /** The words from i on, times 2^r, are the operand's words from i + offset on without their low r bits. */
  lemma {:induction false} RightSuffix(w: nat, s: seq<nat>, offset: nat, r: nat, out: seq<nat>, i: nat)
    requires r < w && AreWords(Pow2(w), s) && IsRightShift(w, s, offset, r, out) && i + offset < |s|
    ensures var b := Pow2(w);
            Value(b, s[i + offset..]) == Value(b, out[i..|s| - offset]) * Pow2(r) + Rem(s[i + offset], Pow2(r))
    decreases |s| - i
  {
    var b, n, j := Pow2(w), |s| - offset, i + offset;
    assert s[j..][1..] == s[j + 1..] && out[i..n][1..] == out[i + 1..n];
    ValueCons(b, s[j..]);
    ValueCons(b, out[i..n]);
    if i + 1 < n {
      RightSuffix(w, s, offset, r, out, i + 1);
      RightWordEquation(w, s, offset, r, i);
      RightStep(b, Pow2(r), s[j], Rem(s[j], Pow2(r)), Rem(s[j + 1], Pow2(r)), out[i], Value(b, out[i + 1..n]));
    } else {
      QuotRem(s[j], Pow2(r));
      assert s[j + 1..] == [] && out[i + 1..n] == [];
    }
  }

  /** The meaning of `shift_right`: division by 2^shift. */
  lemma {:induction false} RightShiftValue(w: nat, s: seq<nat>, shift: nat, out: seq<nat>)
    requires w > 0 && AreWords(Pow2(w), s) && shift < |s| * w
    requires IsRightShift(w, s, Quot(shift, w), Rem(shift, w), out)
    ensures Value(Pow2(w), out) == Quot(Value(Pow2(w), s), Pow2(shift))
  {
    var b, n, offset, r := Pow2(w), |s|, Quot(shift, w), Rem(shift, w);
    QuotLt(shift, w, n);
    RightSuffix(w, s, offset, r, out, 0);
    ValueTrim(b, out, n - offset);
    assert out[0..n - offset] == out[..n - offset];
    ValueSplit(b, s, offset);
    ValueBound(b, s[..offset]);
    PowOfShift(w, shift);
    RightWhole(Value(b, s), Pow(b, offset), Pow2(r), Value(b, out), Rem(s[offset], Pow2(r)), Value(b, s[..offset]));
  }

  lemma {:induction false} RightWhole(x: nat, O: nat, m: nat, v: nat, bits: nat, low: nat)
    requires O > 0 && m > 0 && x == low + O * (v * m + bits) && bits < m && low < O
    ensures v == Quot(x, O * m)
  {
    MulDist(O, v * m, bits);
    MulAssoc(v, m, O);
    MulMono(bits + 1, m, O);
    MulDist(O, bits, 1);
    QuotRemUnique(x, O * m, v, O * bits + low);
  }

  lemma {:induction false} RightShiftIsWords(w: nat, s: seq<nat>, offset: nat, r: nat, out: seq<nat>)
    requires r < w && AreWords(Pow2(w), s) && IsRightShift(w, s, offset, r, out)
    ensures AreWords(Pow2(w), out)
  {
    forall k | 0 <= k < |s| ensures out[k] < Pow2(w) { RightWordBound(w, s, offset, r, k); }
  }

  /** Word i of `shift_right`, read from the operand. */
  method ReadRightWord(w: nat, operand: Span, offset: nat, r: nat, i: nat, ghost s: seq<nat>) returns (word: nat)
    requires r < w && operand.InBounds() && |s| == operand.size && i + offset < |s|
    requires forall k | operand.start + i + offset <= k < operand.start + operand.size :: operand.data[k] == s[k - operand.start]
    ensures word == RightWord(w, s, offset, r, i)
  {
    word := operand.data[operand.start + i + offset];
    if r != 0 {
      word := ShiftRight(word, r);
      if i < operand.size - offset - 1 {
        word := BitOr(word, ShiftLeft(w, operand.data[operand.start + i + offset + 1], w - r));
      }
    }
  }

  /** The word loops of `shift_right`; words are written from the bottom up, so the result may be the
      operand's own storage. */
  method StoreRightShift(w: nat, operand: Span, offset: nat, remainder: nat, result: Span)
    requires remainder < w && operand.InBounds() && result.InBounds()
    requires result.size == operand.size && offset < result.size && operand.Aligned(result)
    modifies result.data
    ensures SameOutside(result, old(result.data[..]))
    ensures IsRightShift(w, old(operand.Words()), offset, remainder, result.Words())
  {
    StoreRightLoop(w, operand, offset, remainder, result, operand.Words());
    ClearWords(result, result.size - offset, result.size);
  }

  method StoreRightLoop(w: nat, operand: Span, offset: nat, remainder: nat, result: Span, ghost s: seq<nat>)
    requires remainder < w && operand.InBounds() && result.InBounds() && s == operand.Words()
    requires result.size == operand.size && offset < result.size && operand.Aligned(result)
    modifies result.data
    ensures SameOutside(result, old(result.data[..]))
    ensures forall k | result.start <= k < result.start + result.size - offset
              :: result.data[k] == RightWord(w, s, offset, remainder, k - result.start)
  {
    var size := result.size;
    for i := 0 to size - offset
      invariant SameOutside(result, old(result.data[..]))
      invariant forall k | result.start + i <= k < result.start + size :: result.data[k] == old(result.data[k])
      invariant forall k | result.start <= k < result.start + i
                  :: result.data[k] == RightWord(w, s, offset, remainder, k - result.start)
    {
      var word := ReadRightWord(w, operand, offset, remainder, i, s);
      result.data[result.start + i] := word;
    }
  }

  /** `shift_right`: division by 2^shift. */
  method ShiftRightWords(w: nat, operand: Span, shift: nat, result: Span)
    requires w > 0 && operand.Valid(Pow2(w)) && result.InBounds()
    requires result.size == operand.size && shift < result.size * w && operand.Aligned(result)
    modifies result.data
    ensures result.Valid(Pow2(w)) && SameOutside(result, old(result.data[..]))
    ensures Value(Pow2(w), result.Words()) == Quot(old(Value(Pow2(w), operand.Words())), Pow2(shift))
  {
    ghost var s := operand.Words();
    QuotLt(shift, w, operand.size);
    StoreRightShift(w, operand, Quot(shift, w), Rem(shift, w), result);
    RightShiftIsWords(w, s, Quot(shift, w), Rem(shift, w), result.Words());
    RightShiftValue(w, s, shift, result.Words());
  }
}
