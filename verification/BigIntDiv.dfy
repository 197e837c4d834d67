/** Knuth's algorithm D (`div_mod_internal` in AK/BigIntBase.h). */
module BigIntDiv {
  import opened Arith
  import opened BigIntWords
  import opened BigIntAdd
  import opened BigIntShift

  // ---- D1: normalization ----

  /** `count_leading_zeroes` of a non-zero word of w bits. */
  function CountLeadingZeroes(w: nat, x: nat): (r: nat)
    requires w > 0 && 0 < x < Pow2(w)
    ensures r < w && Pow2(w) <= 2 * (x * Pow2(r)) && x * Pow2(r) < Pow2(w)
    decreases Pow2(w) - x
  {
    if 2 * x >= Pow2(w) then 0
    else
      var r := CountLeadingZeroes(w, 2 * x);
      assert (2 * x) * Pow2(r) == x * Pow2(r + 1) by { PowStep(2, r + 1); MulAssoc(x, 2, Pow2(r)); }
      assert r + 1 < w by { if r + 1 >= w { Pow2Bound(w, r + 1, x); } }
      r + 1
  }

  lemma {:induction false} Pow2Bound(w: nat, r: nat, x: nat)
    requires r >= w && x > 0
    ensures x * Pow2(r) >= Pow2(w)
  {
    PowMonotone(2, w, r);
    MulMono(1, x, Pow2(r));
  }

  // ---- D3: the trial digit ----

  /** The two- and three-digit heads the trial digit is judged by. */
  ghost predicate Heads(b: nat, u2: nat, u1: nat, u0: nat, v1: nat, v0: nat, u: nat, v: nat) {
    u == u0 + Times(b, u1 + Times(b, u2)) && v == v0 + Times(b, v1)
  }

  lemma {:induction false} AreHeads(b: nat, u2: nat, u1: nat, u0: nat, v1: nat, v0: nat, u: nat, v: nat)
    ensures Heads(b, u2, u1, u0, v1, v0, u, v) <==> u == (u2 * b + u1) * b + u0 && v == v1 * b + v0
  {
    TimesIs(b, u2);
    TimesIs(b, v1);
    var top := u1 + Times(b, u2);
    assert top == u2 * b + u1 && Times(b, v1) == v1 * b;
    TimesIs(b, top);
    assert Times(b, top) == top * b;
  }

  /** Testing qhat against one more digit of each side is testing it against the heads. */
  lemma {:induction false} TooLargeTest(b: nat, u2: nat, u1: nat, u0: nat, v1: nat, v0: nat, u: nat, v: nat, qhat: int, rhat: int)
    requires Heads(b, u2, u1, u0, v1, v0, u, v) && u2 * b + u1 == qhat * v1 + rhat
    ensures qhat * v0 > rhat * b + u0 <==> qhat * v > u
  {
    AreHeads(b, u2, u1, u0, v1, v0, u, v);
    MulDist(qhat, v1 * b, v0);
    MulAssoc(qhat, v1, b);
    MulDist(b, qhat * v1, rhat);
  }

  lemma {:induction false} SecondTest(b: nat, u2: nat, u1: nat, u0: nat, v1: nat, v0: nat, u: nat, v: nat, qhat: int, rhat: int)
    requires Heads(b, u2, u1, u0, v1, v0, u, v) && u2 * b + u1 == qhat * v1 + rhat
    ensures (qhat - 1) * v0 > (rhat + v1) * b + u0 <==> (qhat - 1) * v > u
  {
    MulDistSub(v1, qhat, 1);
    TooLargeTest(b, u2, u1, u0, v1, v0, u, v, qhat - 1, rhat + v1);
  }

  /** q is the quotient of the heads. */
  ghost predicate HeadDigit(u: nat, v: nat, q: nat) {
    Times(q, v) <= u < Times(q + 1, v)
  }

  lemma {:induction false} IsHeadDigit(u: nat, v: nat, q: nat)
    ensures HeadDigit(u, v, q) <==> q * v <= u < (q + 1) * v
  {
    TimesIs(q, v);
    TimesIs(q + 1, v);
  }

  /** The quotient by the top digit alone is at most two too large. */
  lemma {:induction false} TwoTooLarge(b: nat, u2: nat, u1: nat, u0: nat, v1: nat, v0: nat, u: nat, v: nat, qhat: nat, rhat: nat)
    requires Heads(b, u2, u1, u0, v1, v0, u, v) && u2 * b + u1 == qhat * v1 + rhat
    requires qhat < b && v0 < b && b <= 2 * v1
    ensures (qhat - 2) * v <= u
  {
    AreHeads(b, u2, u1, u0, v1, v0, u, v);
    calc {
      (qhat - 2) * v;
    ==  { MulDistSub(v, qhat, 2); MulDist(qhat, v1 * b, v0); MulAssoc(qhat, v1, b); }
      (qhat * v1) * b + qhat * v0 - 2 * v;
    }
    assert qhat * v0 <= b * b by { MulMono(qhat, b, v0); MulMono(v0, b, b); }
    assert b * b <= 2 * v by { MulMono(b, 2 * v1, b); MulAssoc(2, v1, b); }
    MulDist(b, qhat * v1, rhat);
    assert rhat * b >= 0;
  }

  /** The quotient by the top digit alone is never too small. */
  lemma {:induction false} NeverTooSmall(b: nat, u2: nat, u1: nat, u0: nat, v1: nat, v0: nat, u: nat, v: nat, qhat: nat, rhat: nat)
    requires Heads(b, u2, u1, u0, v1, v0, u, v) && u2 * b + u1 == qhat * v1 + rhat && rhat < v1 && u0 < b
    ensures u < (qhat + 1) * v
  {
    AreHeads(b, u2, u1, u0, v1, v0, u, v);
    var top := u2 * b + u1;
    MulDist(v1, qhat, 1);
    assert top + 1 <= (qhat + 1) * v1;
    MulMono(top + 1, (qhat + 1) * v1, b);
    MulDist(b, top, 1);
    MulAssoc(qhat + 1, v1, b);
    MulDist(qhat + 1, v1 * b, v0);
    assert (qhat + 1) * v0 >= 0;
  }

  lemma {:induction false} StepDown(q: nat, v: nat, u: nat)
    requires q * v > u
    ensures q > 0 && u < ((q - 1) + 1) * v
  {
  }

  /** `is_qhat_too_large`, once or twice. The ghost u and v are the heads the tests speak about. */
  method CorrectDigit(b: nat, u0: nat, v1: nat, v0: nat, qhat0: nat, rhat: nat, ghost u: nat, ghost v: nat)
    returns (qhat: nat)
    requires qhat0 < b && rhat < b && v1 < b && v0 < b
    requires qhat0 * v0 > rhat * b + u0 <==> qhat0 * v > u
    requires (qhat0 - 1) * v0 > (rhat + v1) * b + u0 <==> (qhat0 - 1) * v > u
    requires (qhat0 - 2) * v <= u < (qhat0 + 1) * v
    ensures qhat < b && HeadDigit(u, v, qhat)
  {
    qhat := qhat0;
    if qhat * v0 > rhat * b + u0 {
      StepDown(qhat, v, u);
      qhat := qhat - 1;
      var sum := AddWords(b, rhat, v1, false);
      if sum.carry {
        NoSecondCorrection(b, qhat, v0, rhat + v1, u0);
      } else if qhat * v0 > sum.word * b + u0 {
        StepDown(qhat, v, u);
        qhat := qhat - 1;
      }
    }
    IsHeadDigit(u, v, qhat);
  }

  /** Step D3: the trial digit from the top words. */
  method TrialDigit(b: nat, u2: nat, u1: nat, u0: nat, v1: nat, v0: nat, ghost u: nat, ghost v: nat) returns (qhat: nat)
    requires u2 < b && u1 < b && u0 < b && v1 < b && v0 < b && b <= 2 * v1
    requires u2 <= v1 && Heads(b, u2, u1, u0, v1, v0, u, v)
    ensures qhat < b
    ensures u2 == v1 ==> qhat == b - 1
    ensures u2 < v1 ==> HeadDigit(u, v, qhat)
  {
    if u2 == v1 {
      return b - 1;
    }
    var rhat: nat;
    qhat, rhat := DivModWords(b, u1, u2, v1);
    TooLargeTest(b, u2, u1, u0, v1, v0, u, v, qhat, rhat);
    SecondTest(b, u2, u1, u0, v1, v0, u, v, qhat, rhat);
    NeverTooSmall(b, u2, u1, u0, v1, v0, u, v, qhat, rhat);
    TwoTooLarge(b, u2, u1, u0, v1, v0, u, v, qhat, rhat);
    qhat := CorrectDigit(b, u0, v1, v0, qhat, rhat, u, v);
  }

  lemma {:induction false} NoSecondCorrection(b: nat, qhat: nat, v0: nat, rhat: nat, u0: nat)
    requires qhat < b && v0 < b && rhat >= b
    ensures qhat * v0 <= rhat * b + u0
  {
    MulMono(qhat, b, v0);
    MulMono(v0, b, b);
    MulMono(b, rhat, b);
  }

  /** `div_mod_words`: a double word by a word, when the quotient fits a word. */
  method DivModWords(b: nat, low: nat, high: nat, divisor: nat) returns (quotient: nat, remainder: nat)
    requires low < b && high < divisor < b
    ensures high * b + low == quotient * divisor + remainder && remainder < divisor && quotient < b
  {
    var dividend := high * b + low;
    quotient, remainder := Quot(dividend, divisor), Rem(dividend, divisor);
    QuotRem(dividend, divisor);
    MulMono(high + 1, divisor, b);
    MulDist(b, high, 1);
    QuotLt(dividend, divisor, b);
  }

  /** The digit of the two- and three-word heads is never below the digit of the whole window and at most
      one above it: with H = b^(n-2), U and V lie in [u * H, (u + 1) * H) and [v * H, (v + 1) * H). */
  lemma {:induction false} HeadDigitBounds(b: nat, H: nat, u: nat, v: nat, U: nat, V: nat, qhat: nat)
    requires H > 0 && qhat < b && b <= v + 1
    requires u * H <= U < (u + 1) * H && v * H <= V < (v + 1) * H
    requires HeadDigit(u, v, qhat)
    ensures (qhat - 1) * V <= U < (qhat + 1) * V
  {
    IsHeadDigit(u, v, qhat);
    assert U < (qhat + 1) * V by {
      MulMono(u + 1, (qhat + 1) * v, H);
      MulAssoc(qhat + 1, v, H);
      MulMono(v * H, V, qhat + 1);
    }
    assert (qhat - 1) * V <= U by {
      if qhat > 0 {
        MulMono(V, (v + 1) * H, qhat - 1);
        MulAssoc(qhat - 1, v + 1, H);
        assert (qhat - 1) * (v + 1) <= u by {
          MulDistSub(v + 1, qhat, 1);
          MulDist(qhat, v, 1);
        }
        MulMono((qhat - 1) * (v + 1), u, H);
      }
    }
  }

  /** With equal top words the largest digit is at most one too large. */
  lemma {:induction false} EqualTopBounds(b: nat, K: nat, v1: nat, U: nat, V: nat)
    requires K > 0 && b > 1 && b <= 2 * v1
    requires (v1 * b) * K <= U < b * V && V < (v1 + 1) * K
    ensures (b - 2) * V <= U < b * V
  {
    MulMono(V, (v1 + 1) * K, b - 2);
    MulAssoc(b - 2, v1 + 1, K);
    assert (b - 2) * (v1 + 1) <= v1 * b by {
      MulDistSub(v1 + 1, b, 2);
      MulDist(b, v1, 1);
    }
    MulMono((b - 2) * (v1 + 1), v1 * b, K);
  }

  // ---- D4: multiply and subtract ----

  function Carries(mulCarry: nat, borrow: bool): nat {
    if borrow then mulCarry + 1 else mulCarry
  }

  /** After j words, the words stored and the two carries out of them make up the first j words of the window minus
      qhat times those of the divisor. */
  ghost predicate Subtracted(b: nat, window: seq<nat>, v: seq<nat>, qhat: nat, j: nat, out: seq<nat>, mulCarry: nat, borrow: bool)
    requires j <= |v| && j <= |window|
  {
    && |out| == j && AreWords(b, out) && mulCarry < b
    && Value(b, out) + Times(qhat, Value(b, v[..j])) == Value(b, window[..j]) + Times(Carries(mulCarry, borrow), Pow(b, j))
  }

  lemma {:induction false} SubtractStepIntegers(b: int, P: int, qhat: int, out: int, x: int, y: int, carries: int,
                             word: int, digit: int, w: int, low: int, high: int, mulCarry: int, c: int, c': bool)
    requires out + qhat * x == y + carries * P && carries == mulCarry + c
    requires word - Weigh(c', b) == w - low - c && low + high * b == qhat * digit + mulCarry
    ensures (out + word * P) + qhat * (x + digit * P) == (y + w * P) + (high + ToInt(c')) * (b * P)
  {
    var h := high + ToInt(c');
    assert word + qhat * digit == w + h * b - carries by { MulDist(b, high, ToInt(c')); }
    calc {
      (out + word * P) + qhat * (x + digit * P);
    ==  { MulDist(qhat, x, digit * P); MulAssoc(qhat, digit, P); MulDist(P, word, qhat * digit); }
      (out + qhat * x) + (word + qhat * digit) * P;
    ==
      y + carries * P + (w + h * b - carries) * P;
    ==  { MulDistSub(P, w + h * b, carries); MulDist(P, w, h * b); MulAssoc(h, b, P); }
      (y + w * P) + h * (b * P);
    }
  }

  lemma {:induction false} SubtractStep(b: nat, window: seq<nat>, v: seq<nat>, qhat: nat, j: nat, j': nat, out: seq<nat>,
                                        mulCarry: nat, borrow: bool, low: nat, high: nat, step: WordCarry)
    requires j' == j + 1 <= |v| && j < |window| && Subtracted(b, window, v, qhat, j, out, mulCarry, borrow)
    requires step.word < b && high < b && step.word - Weigh(step.carry, b) == window[j] - low - ToInt(borrow)
    requires low + high * b == qhat * v[j] + mulCarry
    ensures Subtracted(b, window, v, qhat, j', out + [step.word], high, step.carry)
  {
    var P, x, x' := Pow(b, j), Value(b, v[..j]), Value(b, v[..j']);
    var carries, carries' := Carries(mulCarry, borrow), Carries(high, step.carry);
    TimesIs(qhat, x);
    TimesIs(qhat, x');
    TimesIs(carries, P);
    TimesIs(carries', Pow(b, j'));
    ValueStep(b, window, j);
    ValueStep(b, v, j);
    ValueAppend(b, out, step.word);
    PowStep(b, j');
    SubtractStepIntegers(b, P, qhat, Value(b, out), x, Value(b, window[..j]), carries,
                         step.word, v[j], window[j], low, high, mulCarry, ToInt(borrow), step.carry);
  }

  lemma {:induction false} ProductFits(b: nat, x: nat, y: nat, c: nat)
    requires b > 1 && x < b && y < b && c < b
    ensures Quot(Times(x, y) + c, b) < b
  {
    TimesIs(x, y);
    MulMono(x, b - 1, y);
    MulMono(y, b - 1, b - 1);
    MulDist(b - 1, b - 1, 1);
    MulStrictMono(b - 1, b, b);
    QuotLt(Times(x, y) + c, b, b);
  }

  /** The last word takes both carries. */
  lemma {:induction false} SubtractLast(b: nat, window: seq<nat>, v: seq<nat>, qhat: nat, n: nat, out: seq<nat>,
                                        mulCarry: nat, borrow: bool, last: WordCarry)
    requires n == |v| && |window| == n + 1 && Subtracted(b, window, v, qhat, n, out, mulCarry, borrow)
    requires last.word - Weigh(last.carry, b) == window[n] - mulCarry - ToInt(borrow)
    ensures Value(b, out + [last.word]) + Times(qhat, Value(b, v)) == Value(b, window) + Weigh(last.carry, Pow(b, |window|))
  {
    var carries := Carries(mulCarry, borrow);
    TakeAll(v);
    TakeAll(window);
    TimesIs(carries, Pow(b, n));
    ValueStep(b, window, n);
    ValueAppend(b, out, last.word);
    PowStep(b, n + 1);
    SubtractLastIntegers(b, Pow(b, n), Value(b, out) + Times(qhat, Value(b, v)), Value(b, window[..n]),
                         last.word, window[n], carries, last.carry);
  }

  lemma {:induction false} SubtractLastIntegers(b: int, P: int, lhs: int, y: int, word: int, w: int, carries: int, c': bool)
    requires lhs == y + carries * P && word - Weigh(c', b) == w - carries
    ensures lhs + word * P == (y + w * P) + Weigh(c', b * P)
  {
    assert word == w - carries + Weigh(c', b);
    MulDist(P, w - carries, Weigh(c', b));
    MulDistSub(P, w, carries);
  }

  /** Step D4 on a window of n + 1 dividend words; returns whether it went below zero. */
  method MultiplySubtract(b: nat, window: Span, divisor: Span, n: nat, qhat: nat) returns (borrow: bool)
    requires b > 1 && qhat < b && window.Valid(b) && divisor.Valid(b) && window.size == n + 1 && n <= divisor.size
    requires window.data != divisor.data
    modifies window.data
    ensures window.Valid(b) && SameOutside(window, old(window.data[..]))
    ensures Value(b, window.Words()) + Times(qhat, Value(b, divisor.Words()[..n]))
         == old(Value(b, window.Words())) + Weigh(borrow, Pow(b, n + 1))
  {
    ghost var before, v := window.Words(), divisor.Words()[..n];
    var mulCarry;
    ghost var out;
    mulCarry, borrow, out := SubtractLoop(b, window, divisor, n, qhat, before, v);
    borrow := SubtractLastWord(b, window, n, mulCarry, borrow, old(window.data[..]), before, out, v, qhat);
  }

  method SubtractLastWord(b: nat, window: Span, n: nat, mulCarry: nat, borrow: bool,
                          ghost data: seq<nat>, ghost before: seq<nat>, ghost out: seq<nat>, ghost v: seq<nat>, ghost qhat: nat)
    returns (borrow': bool)
    requires window.InBounds() && window.size == n + 1 && |v| == n && |data| == window.data.Length
    requires before == data[window.start..window.start + (n + 1)] && AreWords(b, before)
    requires Subtracted(b, before, v, qhat, n, out, mulCarry, borrow) && window.data[..] == Stored(data, window.start, out)
    modifies window.data
    ensures window.Valid(b) && SameOutside(window, data)
    ensures Value(b, window.Words()) + Times(qhat, Value(b, v)) == Value(b, before) + Weigh(borrow', Pow(b, n + 1))
  {
    var word := window.data[window.start + n];
    WordAt(window, data, before, n);
    assert word == window.data[..][window.start + n];
    var last := SubWords(b, word, mulCarry, borrow);
    window.data[window.start + n] := last.word;
    borrow' := last.carry;
    WordsAre(window, out + [last.word]);
    SubtractLast(b, before, v, qhat, n, out, mulCarry, borrow, last);
  }

  /** The word loop of D4. */
  method SubtractLoop(b: nat, window: Span, divisor: Span, n: nat, qhat: nat, ghost before: seq<nat>, ghost v: seq<nat>)
    returns (mulCarry: nat, borrow: bool, ghost out: seq<nat>)
    requires b > 1 && qhat < b && window.Valid(b) && divisor.Valid(b) && window.size == n + 1 && n <= divisor.size
    requires window.data != divisor.data && before == window.Words() && v == divisor.Words()[..n]
    modifies window.data
    ensures |v| == n < |before| && Subtracted(b, before, v, qhat, n, out, mulCarry, borrow)
    ensures window.data[..] == Stored(old(window.data[..]), window.start, out)
  {
    mulCarry, borrow, out := 0, false, [];
    ghost var data := window.data[..];
    NothingSubtracted(b, before, v, qhat);
    for j := 0 to n
      invariant Subtracted(b, before, v, qhat, j, out, mulCarry, borrow)
      invariant window.data[..] == Stored(data, window.start, out) && divisor.Words()[..n] == v
    {
      var word := window.data[window.start + j];
      assert word == window.data[..][window.start + j];
      WordAt(window, data, before, j);
      mulCarry, borrow, out := SubtractTurn(b, window, divisor, word, j, qhat, mulCarry, borrow, data, before, v, j + 1, out);
    }
  }

  /** One turn of it. */
  method SubtractTurn(b: nat, window: Span, divisor: Span, word: nat, j: nat, qhat: nat, mulCarry: nat, borrow: bool,
                      ghost data: seq<nat>, ghost before: seq<nat>, ghost v: seq<nat>, ghost j': nat, ghost out: seq<nat>)
    returns (mulCarry': nat, borrow': bool, ghost out': seq<nat>)
    requires b > 1 && qhat < b && window.InBounds() && divisor.Valid(b) && window.data != divisor.data
    requires j' == j + 1 <= |v| < |before| && j < window.size && |v| <= divisor.size && v == divisor.Words()[..|v|]
    requires word == before[j] < b && Subtracted(b, before, v, qhat, j, out, mulCarry, borrow)
    requires window.start + j < |data| && window.data[..] == Stored(data, window.start, out)
    modifies window.data
    ensures Subtracted(b, before, v, qhat, j', out', mulCarry', borrow')
    ensures window.start + j' <= |data| && window.data[..] == Stored(data, window.start, out')
  {
    var digit := divisor.data[divisor.start + j];
    assert digit == divisor.Words()[j] == v[j];
    var word';
    word', mulCarry', borrow' := SubtractWord(b, word, digit, qhat, mulCarry, borrow, before, v, j, j', out);
    StoreWord(window, j, word');
    StoredMore(data, window.start, out, word');
    out' := out + [word'];
  }

  lemma {:induction false} NothingSubtracted(b: nat, window: seq<nat>, v: seq<nat>, qhat: nat)
    requires b > 0
    ensures Subtracted(b, window, v, qhat, 0, [], 0, false)
  {
    assert v[..0] == [] && window[..0] == [];
    TimesIs(qhat, 0);
  }

  /** An array with words written to it from `start` on. */
  ghost function Stored(data: seq<nat>, start: nat, words: seq<nat>): (r: seq<nat>)
    requires start + |words| <= |data|
    ensures |r| == |data|
    ensures forall k | 0 <= k < |r| :: r[k] == if start <= k < start + |words| then words[k - start] else data[k]
  {
    data[..start] + words + data[start + |words|..]
  }

  lemma {:induction false} StoredMore(data: seq<nat>, start: nat, words: seq<nat>, word: nat)
    requires start + |words| < |data|
    ensures Stored(data, start, words)[start + |words| := word] == Stored(data, start, words + [word])
  {
  }

  method StoreWord(span: Span, j: nat, word: nat)
    requires span.InBounds() && j < span.size
    modifies span.data
    ensures span.data[..] == old(span.data[..])[span.start + j := word]
  {
    span.data[span.start + j] := word;
  }

  lemma {:induction false} WordAt(span: Span, data: seq<nat>, words: seq<nat>, j: nat)
    requires j < span.size && span.start + span.size <= |data| && words == data[span.start..span.start + span.size]
    ensures words[j] == data[span.start + j]
  {
  }

  /** One word of it. */
  method SubtractWord(b: nat, word: nat, digit: nat, qhat: nat, mulCarry: nat, borrow: bool,
                      ghost before: seq<nat>, ghost v: seq<nat>, ghost j: nat, ghost j': nat, ghost out: seq<nat>)
    returns (word': nat, mulCarry': nat, borrow': bool)
    requires b > 1 && qhat < b && word < b && digit < b && j' == j + 1 <= |v| < |before|
    requires word == before[j] && digit == v[j] && Subtracted(b, before, v, qhat, j, out, mulCarry, borrow)
    ensures Subtracted(b, before, v, qhat, j', out + [word'], mulCarry', borrow')
  {
    ProductFits(b, qhat, digit, mulCarry);
    var product := Times(qhat, digit) + mulCarry;
    var low, high := Rem(product, b), Quot(product, b);
    var step := SubWords(b, word, low, borrow);
    word', mulCarry', borrow' := step.word, high, step.carry;
    QuotRem(product, b);
    TimesIs(qhat, digit);
    SubtractStep(b, before, v, qhat, j, j', out, mulCarry, borrow, low, high, step);
  }

  // ---- one digit ----

  lemma {:induction false} ValueTwo(b: nat, s: seq<nat>)
    requires |s| == 2
    ensures Value(b, s) == s[1] * b + s[0]
  {
    ValueCons(b, s);
    assert s[1..] == [s[1]];
    ValueOne(b, s[1]);
  }

  lemma {:induction false} ValueThree(b: nat, s: seq<nat>)
    requires |s| == 3
    ensures Value(b, s) == (s[2] * b + s[1]) * b + s[0]
  {
    ValueCons(b, s);
    assert s[1..][0] == s[1] && s[1..][1] == s[2];
    ValueTwo(b, s[1..]);
  }

  /** The words from k on bracket the value at scale b^k. */
  lemma {:induction false} HeadBracket(b: nat, s: seq<nat>, k: nat)
    requires AreWords(b, s) && k <= |s|
    ensures Value(b, s[k..]) * Pow(b, k) <= Value(b, s) < (Value(b, s[k..]) + 1) * Pow(b, k)
  {
    ValueSplit(b, s, k);
    ValueBound(b, s[..k]);
    MulDist(Pow(b, k), Value(b, s[k..]), 1);
  }

  /** A window whose upper n words are below the divisor has a top word no larger than the divisor's:
      the first VERIFY of the loop. */
  lemma {:induction false} TopWordBound(b: nat, window: seq<nat>, v: seq<nat>)
    requires b > 1 && AreWords(b, window) && AreWords(b, v) && |window| == |v| + 1 && |v| > 0
    requires Value(b, window[1..]) < Value(b, v)
    ensures window[|v|] <= v[|v| - 1]
  {
    var n := |v|;
    var top := window[1..];
    assert top[..n] == top && v[..n] == v && top[n - 1] == window[n];
    ValueTop(b, top, n);
    ValueTop(b, v, n);
    MulCancelLe(top[n - 1], v[n - 1], Pow(b, n - 1));
  }

  lemma {:induction false} WindowBelow(b: nat, window: seq<nat>, V: nat)
    requires AreWords(b, window) && |window| > 0 && Value(b, window[1..]) < V
    ensures Value(b, window) < b * V
  {
    ValueCons(b, window);
    MulMono(Value(b, window[1..]) + 1, V, b);
    MulDist(b, Value(b, window[1..]), 1);
  }

  /** The trial digit is never below the true digit of the window and at most one above it. */
  ghost predicate GoodTrial(U: nat, V: nat, qhat: nat) {
    U < Times(qhat + 1, V) && (qhat > 0 ==> Times(qhat - 1, V) <= U)
  }

  lemma {:induction false} IsGoodTrial(U: nat, V: nat, qhat: nat)
    ensures GoodTrial(U, V, qhat) <==> (qhat - 1) * V <= U < (qhat + 1) * V
  {
    TimesIs(qhat + 1, V);
    if qhat > 0 {
      TimesIs(qhat - 1, V);
    }
  }

  lemma {:induction false} SmallerTopIsGood(b: nat, window: seq<nat>, v: seq<nat>, u3: nat, v2: nat, qhat: nat)
    requires b > 1 && AreWords(b, window) && AreWords(b, v) && |window| == |v| + 1 && |v| >= 2
    requires v[|v| - 1] > 0 && qhat < b
    requires u3 == Value(b, window[|v| - 2..]) && v2 == Value(b, v[|v| - 2..])
    requires HeadDigit(u3, v2, qhat)
    ensures GoodTrial(Value(b, window), Value(b, v), qhat)
  {
    var n := |v|;
    HeadBracket(b, window, n - 2);
    HeadBracket(b, v, n - 2);
    assert b <= v2 by {
      ValueTwo(b, v[n - 2..]);
      MulMono(1, v[n - 1], b);
    }
    HeadDigitBounds(b, Pow(b, n - 2), u3, v2, Value(b, window), Value(b, v), qhat);
    IsGoodTrial(Value(b, window), Value(b, v), qhat);
  }

  lemma {:induction false} EqualTopIsGood(b: nat, window: seq<nat>, v: seq<nat>)
    requires b > 1 && AreWords(b, window) && AreWords(b, v) && |window| == |v| + 1 && |v| >= 2
    requires b <= 2 * v[|v| - 1] && Value(b, window[1..]) < Value(b, v) && window[|v|] == v[|v| - 1]
    ensures GoodTrial(Value(b, window), Value(b, v), b - 1)
  {
    var n := |v|;
    assert window[..n + 1] == window && v[..n] == v;
    WindowBelow(b, window, Value(b, v));
    assert (v[n - 1] * b) * Pow(b, n - 1) <= Value(b, window) by {
      ValueTop(b, window, n + 1);
      PowStep(b, n);
      MulAssoc(v[n - 1], b, Pow(b, n - 1));
    }
    assert Value(b, v) < (v[n - 1] + 1) * Pow(b, n - 1) by { ValueTop(b, v, n); }
    EqualTopBounds(b, Pow(b, n - 1), v[n - 1], Value(b, window), Value(b, v));
    IsGoodTrial(Value(b, window), Value(b, v), b - 1);
  }

  /** Without a borrow the trial digit was right. */
  lemma {:induction false} NoBorrow(U: nat, V: nat, qhat: nat, W: nat)
    requires GoodTrial(U, V, qhat) && W + Times(qhat, V) == U
    ensures U == Times(qhat, V) + W && W < V
  {
  }

  /** With a borrow it was one too large, and one add-back overflows exactly once: the second VERIFY. */
  lemma {:induction false} AddBack(P: nat, U: nat, V: nat, qhat: nat, W: nat, W': nat, r: int)
    requires GoodTrial(U, V, qhat) && 0 < V < P && W + Times(qhat, V) == U + P && W < P && W' < P
    requires W + V == W' + r * P
    ensures r == 1 && qhat > 0 && U == Times(qhat - 1, V) + W' && W' < V
  {
    assert qhat > 0;
    var R := U - Times(qhat - 1, V);
    assert 0 <= R < V && W + V == R + P;
    if r > 1 {
      MulMono(2, r, P);
    } else if r < 1 {
      MulMono(r, 0, P);
    }
  }

  /** Step D3 on a window: the trial digit, never below the true digit and at most one above it. */
  method EstimateDigit(b: nat, window: Span, divisor: Span, n: nat, ghost before: seq<nat>, ghost v: seq<nat>) returns (qhat: nat)
    requires b > 1 && window.Valid(b) && divisor.Valid(b) && 2 <= n <= divisor.size && window.size == n + 1
    requires before == window.Words() && v == divisor.Words()[..n] && b <= 2 * v[n - 1]
    requires Value(b, before[1..]) < Value(b, v)
    ensures qhat < b && GoodTrial(Value(b, before), Value(b, v), qhat)
  {
    var u2, u1, u0 := window.data[window.start + n], window.data[window.start + n - 1], window.data[window.start + n - 2];
    var v1, v0 := divisor.data[divisor.start + n - 1], divisor.data[divisor.start + n - 2];
    assert u2 == before[n] && u1 == before[n - 1] && u0 == before[n - 2];
    assert v1 == v[n - 1] && v0 == v[n - 2];
    TopWordBound(b, before, v);
    assert u2 <= v1;
    ghost var u3, v2 := HeadsOf(b, before, v);
    qhat := TrialDigit(b, u2, u1, u0, v1, v0, u3, v2);
    TrialIsGood(b, before, v, u3, v2, qhat);
  }

  /** What TrialDigit promises makes a good trial digit. */
  lemma {:induction false} TrialIsGood(b: nat, window: seq<nat>, v: seq<nat>, u3: nat, v2: nat, qhat: nat)
    requires b > 1 && AreWords(b, window) && AreWords(b, v) && |window| == |v| + 1 && |v| >= 2
    requires b <= 2 * v[|v| - 1] && qhat < b && Value(b, window[1..]) < Value(b, v)
    requires u3 == Value(b, window[|v| - 2..]) && v2 == Value(b, v[|v| - 2..])
    requires if window[|v|] == v[|v| - 1] then qhat == b - 1 else HeadDigit(u3, v2, qhat)
    ensures GoodTrial(Value(b, window), Value(b, v), qhat)
  {
    if window[|v|] == v[|v| - 1] {
      EqualTopIsGood(b, window, v);
    } else {
      SmallerTopIsGood(b, window, v, u3, v2, qhat);
    }
  }

  /** Steps D3 to D6: one quotient digit, the window replaced by its remainder. */
  method DivideWindow(b: nat, window: Span, divisor: Span, n: nat, ghost v: seq<nat>) returns (q: nat)
    requires b > 1 && b % 2 == 0 && window.Valid(b) && divisor.Valid(b) && window.data != divisor.data
    requires !window.signed && !divisor.signed
    requires 2 <= n <= divisor.size && window.size == n + 1
    requires v == divisor.Words()[..n] && b <= 2 * v[n - 1]
    requires forall k | n <= k < divisor.size :: divisor.Words()[k] == 0
    requires Value(b, window.Words()[1..]) < Value(b, v)
    modifies window.data
    ensures window.Valid(b) && SameOutside(window, old(window.data[..]))
    ensures q < b && old(Value(b, window.Words())) == Times(q, Value(b, v)) + Value(b, window.Words())
    ensures Value(b, window.Words()) < Value(b, v)
  {
    var qhat := EstimateDigit(b, window, divisor, n, window.Words(), v);
    q := SubtractDigit(b, window, divisor, n, qhat, v);
  }

  lemma {:induction false} HeadsOf(b: nat, window: seq<nat>, v: seq<nat>) returns (u3: nat, v2: nat)
    requires |window| == |v| + 1 && |v| >= 2
    ensures u3 == Value(b, window[|v| - 2..]) && v2 == Value(b, v[|v| - 2..])
    ensures Heads(b, window[|v|], window[|v| - 1], window[|v| - 2], v[|v| - 1], v[|v| - 2], u3, v2)
  {
    ValueThree(b, window[|v| - 2..]);
    ValueTwo(b, v[|v| - 2..]);
    u3, v2 := Value(b, window[|v| - 2..]), Value(b, v[|v| - 2..]);
    AreHeads(b, window[|v|], window[|v| - 1], window[|v| - 2], v[|v| - 1], v[|v| - 2], u3, v2);
  }

  /** Steps D4 to D6 for a good trial digit. */
  method SubtractDigit(b: nat, window: Span, divisor: Span, n: nat, qhat: nat, ghost v: seq<nat>) returns (q: nat)
    requires b > 1 && b % 2 == 0 && window.Valid(b) && divisor.Valid(b) && window.data != divisor.data
    requires !window.signed && !divisor.signed
    requires 2 <= n <= divisor.size && window.size == n + 1 && qhat < b
    requires v == divisor.Words()[..n] && Value(b, v) > 0
    requires forall k | n <= k < divisor.size :: divisor.Words()[k] == 0
    requires GoodTrial(Value(b, window.Words()), Value(b, v), qhat)
    modifies window.data
    ensures window.Valid(b) && SameOutside(window, old(window.data[..]))
    ensures q < b && old(Value(b, window.Words())) == Times(q, Value(b, v)) + Value(b, window.Words())
    ensures Value(b, window.Words()) < Value(b, v)
  {
    ghost var U, V, P := Value(b, window.Words()), Value(b, v), Pow(b, n + 1);
    var subCarry := MultiplySubtract(b, window, divisor, n, qhat);
    ghost var W := Value(b, window.Words());
    if subCarry {
      assert W < P by { ValueBound(b, window.Words()); }
      var overflow := AddDivisor(b, window, divisor, n, v);
      DivisorBelow(b, v);
      AddBack(P, U, V, qhat, W, Value(b, window.Words()), overflow);
      assert overflow == 1;
      q := qhat - 1;
    } else {
      NoBorrow(U, V, qhat, W);
      q := qhat;
    }
  }

  /** The addition of step D6. */
  method AddDivisor(b: nat, window: Span, divisor: Span, n: nat, ghost v: seq<nat>) returns (overflow: int)
    requires b > 1 && b % 2 == 0 && window.Valid(b) && divisor.Valid(b) && window.data != divisor.data
    requires !window.signed && !divisor.signed && 2 <= n <= divisor.size && window.size == n + 1
    requires v == divisor.Words()[..n] && forall k | n <= k < divisor.size :: divisor.Words()[k] == 0
    modifies window.data
    ensures window.Valid(b) && SameOutside(window, old(window.data[..])) && Value(b, window.Words()) < Pow(b, n + 1)
    ensures old(Value(b, window.Words())) + Value(b, v) == Value(b, window.Words()) + overflow * Pow(b, n + 1)
  {
    ghost var between := window.Words();
    overflow := Add(b, window, divisor, window, false, false);
    AddBackOperands(b, between, divisor.Words(), v);
    ValueBound(b, window.Words());
  }

  lemma {:induction false} DivisorBelow(b: nat, v: seq<nat>)
    requires b > 1 && AreWords(b, v)
    ensures Value(b, v) < Pow(b, |v| + 1)
  {
    ValueBound(b, v);
    PowStep(b, |v| + 1);
    MulMono(1, b, Pow(b, |v|));
  }

  lemma {:induction false} AddBackOperands(b: nat, window: seq<nat>, divisor: seq<nat>, v: seq<nat>)
    requires b > 1 && |v| > 0 && |window| == |v| + 1 && |divisor| >= |v| && v == divisor[..|v|]
    requires forall k | |v| <= k < |divisor| :: divisor[k] == 0
    ensures Value(b, Extend(b, window, false, |window|)) == Value(b, window)
    ensures Value(b, Extend(b, divisor, false, |window|)) == Value(b, v)
  {
    assert Extend(b, window, false, |window|) == window;
    var y := Extend(b, divisor, false, |window|);
    assert y[..|v|] == v;
    ValueTrim(b, y, |v|);
  }

  // ---- the digit loop ----

  /** c words are still to be brought down: N = Q * b^c * V + what is left, the words above the next window are
      zero, and its upper part starts below V. */
  ghost predicate DivState(b: nat, D: seq<nat>, v: seq<nat>, c: nat, qs: seq<nat>, N: int) {
    && c + |v| <= |D| && AreWords(b, D) && AreWords(b, qs)
    && (forall k | c + |v| <= k < |D| :: D[k] == 0)
    && Value(b, D[c..c + |v|]) < Value(b, v)
    && N == Times(Times(Value(b, qs), Pow(b, c)), Value(b, v)) + Value(b, D[..c + |v|])
  }

  lemma {:induction false} DivStepIntegers(b: int, P: int, Q: int, V: int, low: int, U: int, q: int, R: int, N: int)
    requires N == Q * (b * P) * V + (low + P * U) && U == q * V + R
    ensures N == (q + b * Q) * P * V + (low + P * R)
  {
    calc {
      Q * (b * P) * V + P * U;
    ==  { MulAssoc(Q, b, P); }
      ((Q * b) * P) * V + P * (q * V + R);
    ==  { MulDist(P, q * V, R); MulAssoc(P, q, V); }
      ((Q * b) * P) * V + (q * P) * V + P * R;
    ==  { MulDist(V, (Q * b) * P, q * P); MulDist(P, Q * b, q); }
      (q + b * Q) * P * V + P * R;
    }
  }

  lemma {:induction false} SplitWindow(b: nat, D: seq<nat>, c: nat, n: nat)
    requires c + n <= |D|
    ensures Value(b, D[..c + n]) == Value(b, D[..c]) + Pow(b, c) * Value(b, D[c..c + n])
  {
    assert D[..c + n][..c] == D[..c] && D[..c + n][c..] == D[c..c + n];
    ValueSplit(b, D[..c + n], c);
  }

  /** Dividing the window of |v| + 1 words that starts at word c takes the state one word down. */
  lemma {:induction false} DivStateStep(b: nat, D: seq<nat>, D': seq<nat>, v: seq<nat>, c: nat, qs: seq<nat>, N: int, q: nat)
    requires b > 1 && AreWords(b, v) && DivState(b, D, v, c + 1, qs, N) && |D'| == |D| && AreWords(b, D') && q < b
    requires forall k | 0 <= k < |D| && !(c <= k < c + (|v| + 1)) :: D'[k] == D[k]
    requires Value(b, D[c..c + (|v| + 1)]) == Times(q, Value(b, v)) + Value(b, D'[c..c + (|v| + 1)])
    requires Value(b, D'[c..c + (|v| + 1)]) < Value(b, v)
    ensures DivState(b, D', v, c, [q] + qs, N)
  {
    var n := |v|;
    var W, W' := D[c..c + (n + 1)], D'[c..c + (n + 1)];
    TopWordZero(b, W', v);
    assert D'[c + n] == W'[n];
    assert Value(b, D'[c..c + n]) == Value(b, W') by {
      assert W'[..n] == D'[c..c + n];
      ValueTrim(b, W', n);
    }
    SplitWindow(b, D, c, n + 1);
    SplitWindow(b, D', c, n);
    assert D[..c] == D'[..c] && D[..c + (n + 1)] == D[..(c + 1) + n];
    DivBalanceStep(b, qs, v, c, Value(b, D[..c]), Value(b, W), q, Value(b, W'), N);
  }

  /** The balance of DivState, one word further down. */
  lemma {:induction false} DivBalanceStep(b: nat, qs: seq<nat>, v: seq<nat>, c: nat, low: nat, U: nat, q: nat, R: nat, N: int)
    requires N == Times(Times(Value(b, qs), Pow(b, c + 1)), Value(b, v)) + (low + Pow(b, c) * U)
    requires U == Times(q, Value(b, v)) + R
    ensures N == Times(Times(Value(b, [q] + qs), Pow(b, c)), Value(b, v)) + (low + Pow(b, c) * R)
  {
    var Q, Q', P, V := Value(b, qs), Value(b, [q] + qs), Pow(b, c), Value(b, v);
    assert Q' == q + b * Q by {
      ValueCons(b, [q] + qs);
      assert ([q] + qs)[1..] == qs;
    }
    assert Times(Times(Q, Pow(b, c + 1)), V) == Q * (b * P) * V by {
      PowStep(b, c + 1);
      TimesIs(Q, Pow(b, c + 1));
      TimesIs(Times(Q, Pow(b, c + 1)), V);
    }
    assert Times(Times(Q', P), V) == Q' * P * V by {
      TimesIs(Q', P);
      TimesIs(Times(Q', P), V);
    }
    TimesIs(q, V);
    DivStepIntegers(b, P, Q, V, low, U, q, R, N);
  }

  lemma {:induction false} TopWordZero(b: nat, W: seq<nat>, v: seq<nat>)
    requires b > 1 && AreWords(b, W) && AreWords(b, v) && |W| == |v| + 1 && Value(b, W) < Value(b, v)
    ensures W[|v|] == 0
  {
    var n := |v|;
    assert W[..n + 1] == W;
    ValueTop(b, W, n + 1);
    ValueBound(b, v);
    if W[n] > 0 {
      MulMono(1, W[n], Pow(b, n));
    }
  }

  /** Steps D2 to D7: the quotient digits from the top down. */
  method DivideDigits(b: nat, dividend: Span, divisor: Span, quotient: Span, dividendLen: nat, divisorLen: nat,
                      ghost v: seq<nat>, ghost N: int)
    requires b > 1 && b % 2 == 0 && dividend.Valid(b) && divisor.Valid(b) && quotient.InBounds()
    requires dividend.data != divisor.data && dividend.data != quotient.data && divisor.data != quotient.data
    requires !dividend.signed && !divisor.signed
    requires 2 <= divisorLen <= dividendLen < dividend.size && divisorLen <= divisor.size
    requires dividendLen - divisorLen < quotient.size
    requires v == divisor.Words()[..divisorLen] && b <= 2 * v[divisorLen - 1]
    requires forall k | divisorLen <= k < divisor.size :: divisor.Words()[k] == 0
    requires DivState(b, dividend.Words(), v, dividendLen - divisorLen + 1, [], N)
    modifies dividend.data, quotient.data
    ensures dividend.InBounds() && SameOutside(dividend, old(dividend.data[..])) && SameOutside(quotient, old(quotient.data[..]))
    ensures DivState(b, dividend.Words(), v, 0, quotient.Words()[..dividendLen - divisorLen + 1], N)
  {
    var count := dividendLen - divisorLen + 1;
    var c := count;
    ghost var qs: seq<nat> := [];
    while c > 0
      invariant 0 <= c <= count
      invariant SameOutside(dividend, old(dividend.data[..])) && SameOutside(quotient, old(quotient.data[..]))
      invariant |qs| == count - c
      invariant qs == quotient.data[..][quotient.start + c..quotient.start + count]
      invariant DivState(b, dividend.Words(), v, c, qs, N)
    {
      c := c - 1;
      var q := NextDigit(b, dividend, divisor, divisorLen, c, v, qs, N);
      quotient.data[quotient.start + c] := q;
      qs := [q] + qs;
    }
    PrefixWords(quotient, count, qs);
  }

  lemma {:induction false} PrefixWords(span: Span, n: nat, words: seq<nat>)
    requires span.InBounds() && n <= span.size && words == span.data[..][span.start..span.start + n]
    ensures span.Words()[..n] == words
  {
  }

  /** Rewriting a window of an array rewrites that window of a larger span, and only it. */
  lemma {:induction false} WindowUpdate(b: nat, before: seq<nat>, after: seq<nat>, start: nat, size: nat, offset: nat, n: nat)
    requires |before| == |after| && start + size <= |before| && offset + n <= size
    requires AreWords(b, before[start..start + size]) && AreWords(b, after[start + offset..start + offset + n])
    requires forall k | 0 <= k < |before| && !(start + offset <= k < start + offset + n) :: after[k] == before[k]
    ensures var D, D' := before[start..start + size], after[start..start + size];
            && AreWords(b, D')
            && D'[offset..offset + n] == after[start + offset..start + offset + n]
            && forall k | 0 <= k < size && !(offset <= k < offset + n) :: D'[k] == D[k]
  {
    var D, D' := before[start..start + size], after[start..start + size];
    forall k | 0 <= k < size ensures D'[k] < b {
      if offset <= k < offset + n {
        assert D'[k] == after[start + offset..start + offset + n][k - offset];
      } else {
        assert D'[k] == D[k];
      }
    }
    SliceOfSlice(after, start, size, offset, n);
  }

  lemma {:induction false} SliceOfSlice(s: seq<nat>, start: nat, size: nat, offset: nat, n: nat)
    requires start + size <= |s| && offset + n <= size
    ensures s[start..start + size][offset..offset + n] == s[start + offset..start + offset + n]
  {
    var t, r := s[start..start + size][offset..offset + n], s[start + offset..start + offset + n];
    forall k | 0 <= k < n ensures t[k] == r[k] {
      assert t[k] == s[start..start + size][offset + k] == s[start + (offset + k)];
    }
  }

  /** One turn of the digit loop, on the window of n + 1 words that starts at word c. */
  method NextDigit(b: nat, dividend: Span, divisor: Span, n: nat, c: nat, ghost v: seq<nat>, ghost qs: seq<nat>, ghost N: int)
    returns (q: nat)
    requires b > 1 && b % 2 == 0 && dividend.Valid(b) && divisor.Valid(b) && dividend.data != divisor.data
    requires !dividend.signed && !divisor.signed
    requires 2 <= n <= divisor.size && c + n < dividend.size
    requires v == divisor.Words()[..n] && b <= 2 * v[n - 1]
    requires forall k | n <= k < divisor.size :: divisor.Words()[k] == 0
    requires DivState(b, dividend.Words(), v, c + 1, qs, N)
    modifies dividend.data
    ensures SameOutside(dividend, old(dividend.data[..]))
    ensures DivState(b, dividend.Words(), v, c, [q] + qs, N)
  {
    var from := dividend.start + c;
    var window := Span(dividend.data, from, n + 1, false);
    ghost var before, to := dividend.data[..], from + (n + 1);
    WindowReady(b, before, dividend.start, dividend.size, from, to, v, c, qs, N);
    assert window.Words() == before[from..to];
    q := DivideWindow(b, window, divisor, n, v);
    ghost var after := dividend.data[..];
    assert window.Words() == after[from..to];
    WindowDivided(b, before, after, dividend.start, dividend.size, from, to, v, c, qs, N, q, dividend.Words());
  }

  lemma {:induction false} SliceIsWords(b: nat, s: seq<nat>, from: nat, to: nat)
    requires AreWords(b, s) && from <= to <= |s|
    ensures AreWords(b, s[from..to])
  {
  }

  /** The next window meets what DivideWindow asks for. */
  lemma {:induction false} WindowReady(b: nat, data: seq<nat>, start: nat, size: nat, from: nat, to: nat,
                                       v: seq<nat>, c: nat, qs: seq<nat>, N: int)
    requires start + size <= |data| && c + |v| + 1 <= size && from == start + c && to == from + (|v| + 1)
    requires DivState(b, data[start..start + size], v, c + 1, qs, N)
    ensures AreWords(b, data[from..to]) && Value(b, data[from..to][1..]) < Value(b, v)
  {
    var D := data[start..start + size];
    SliceOfSlice(data, start, size, c, |v| + 1);
    SliceIsWords(b, D, c, c + (|v| + 1));
    assert D[c..c + (|v| + 1)][1..] == D[c + 1..c + 1 + |v|];
  }

  /** The state after the window of an array was replaced by its remainder. */
  lemma {:induction false} WindowDivided(b: nat, before: seq<nat>, after: seq<nat>, start: nat, size: nat, from: nat, to: nat,
                                         v: seq<nat>, c: nat, qs: seq<nat>, N: int, q: nat, D': seq<nat>)
    requires b > 1 && AreWords(b, v) && q < b && |before| == |after| && start + size <= |before|
    requires c + |v| + 1 <= size && from == start + c && to == from + (|v| + 1)
    requires DivState(b, before[start..start + size], v, c + 1, qs, N)
    requires AreWords(b, after[from..to])
    requires forall k | 0 <= k < |before| && !(from <= k < to) :: after[k] == before[k]
    requires Value(b, before[from..to]) == Times(q, Value(b, v)) + Value(b, after[from..to])
    requires Value(b, after[from..to]) < Value(b, v) && D' == after[start..start + size]
    ensures DivState(b, D', v, c, [q] + qs, N)
  {
    SliceOfSlice(before, start, size, c, |v| + 1);
    WindowUpdate(b, before, after, start, size, c, |v| + 1);
    DivStateStep(b, before[start..start + size], D', v, c, qs, N, q);
  }

  // ---- normalization and the whole division ----

  /** A value below b^k has no word at k or above. */
  lemma {:induction false} SmallValue(b: nat, s: seq<nat>, k: nat)
    requires b > 1 && AreWords(b, s) && Value(b, s) < Pow(b, k)
    ensures forall i | k <= i < |s| :: s[i] == 0
  {
    forall i | k <= i < |s| ensures s[i] == 0 {
      if s[i] > 0 {
        ValueSplit(b, s, i + 1);
        ValueTop(b, s, i + 1);
        MulMono(1, s[i], Pow(b, i));
        MulMono(0, Value(b, s[i + 1..]), Pow(b, i + 1));
        PowMonotone(b, k, i);
        assert false;
      }
    }
  }

  /** A result below b^k is what it should be, not merely so modulo the size. */
  lemma {:induction false} ShiftFits(b: nat, out: seq<nat>, k: nat, exact: nat)
    requires b > 1 && AreWords(b, out) && k <= |out| && exact < Pow(b, k) && Value(b, out) == Rem(exact, Pow(b, |out|))
    ensures Value(b, out) == exact
    ensures forall i | k <= i < |out| :: out[i] == 0
  {
    PowMonotone(b, k, |out|);
    QuotRemUnique(exact, Pow(b, |out|), 0, exact);
    SmallValue(b, out, k);
  }

  lemma {:induction false} NormalizedDividend(b: nat, s: seq<nat>, k: nat, m: nat)
    requires b > 1 && AreWords(b, s) && k < |s| && 0 < m <= b && forall i | k <= i < |s| :: s[i] == 0
    ensures Value(b, s) * m < Pow(b, k) * m <= Pow(b, k + 1)
  {
    ValueTrim(b, s, k);
    ValueBound(b, s[..k]);
    PowStep(b, k + 1);
    MulStrictMono(Value(b, s), Pow(b, k), m);
    MulMono(m, b, Pow(b, k));
  }

  /** Multiples of 2^s below 2^w stay below it by a full step. */
  lemma {:induction false} RoomBelow(w: nat, s: nat, t: nat)
    requires s <= w && t * Pow2(s) < Pow2(w)
    ensures (t + 1) * Pow2(s) <= Pow2(w)
  {
    PowAdd(2, w - s, s);
    if t >= Pow2(w - s) {
      MulMono(Pow2(w - s), t, Pow2(s));
      assert false;
    }
    MulMono(t + 1, Pow2(w - s), Pow2(s));
  }

  lemma {:induction false} NormalizedDivisor(w: nat, s: seq<nat>, n: nat, shift: nat)
    requires w > 0 && AreWords(Pow2(w), s) && 0 < n <= |s| && forall i | n <= i < |s| :: s[i] == 0
    requires shift < w && Times(s[n - 1], Pow2(shift)) < Pow2(w) <= 2 * Times(s[n - 1], Pow2(shift))
    ensures Times(Value(Pow2(w), s), Pow2(shift)) < Pow(Pow2(w), n) <= 2 * Times(Value(Pow2(w), s), Pow2(shift))
  {
    var b, m, t, P := Pow2(w), Pow2(shift), s[n - 1], Pow(Pow2(w), n - 1);
    TimesIs(t, m);
    TimesIs(Value(b, s), m);
    ValueTrim(b, s, n);
    ValueTop(b, s, n);
    RoomBelow(w, shift, t);
    PowStep(b, n);
    assert Value(b, s) * m < b * P by {
      MulStrictMono(Value(b, s), (t + 1) * P, m);
      assert ((t + 1) * P) * m == ((t + 1) * m) * P by { MulAssoc(t + 1, P, m); MulAssoc(t + 1, m, P); }
      MulMono((t + 1) * m, b, P);
    }
    assert b * P <= 2 * (Value(b, s) * m) by {
      MulMono(t * P, Value(b, s), m);
      assert (t * P) * m == (t * m) * P by { MulAssoc(t, P, m); MulAssoc(t, m, P); }
      MulMono(b, 2 * (t * m), P);
      MulAssoc(2, t * m, P);
    }
  }

  /** A normalized value has a top word of at least half the base. */
  lemma {:induction false} TopHalf(b: nat, s: seq<nat>, n: nat)
    requires b > 1 && b % 2 == 0 && AreWords(b, s) && 0 < n <= |s| && forall i | n <= i < |s| :: s[i] == 0
    requires Pow(b, n) <= 2 * Value(b, s)
    ensures b <= 2 * s[n - 1]
  {
    ValueTrim(b, s, n);
    ValueTop(b, s, n);
    if 2 * s[n - 1] < b {
      assert 2 * (s[n - 1] + 1) <= b;
      PowStep(b, n);
      MulMono(2 * (s[n - 1] + 1), b, Pow(b, n - 1));
      MulAssoc(2, s[n - 1] + 1, Pow(b, n - 1));
      assert false;
    }
  }

  /** The first window lies below the divisor: its top word is what the shift pushed out. */
  lemma {:induction false} FirstWindow(b: nat, D: seq<nat>, v: seq<nat>, k: nat, m: nat, N: int)
    requires b > 1 && AreWords(b, D) && AreWords(b, v) && 0 < |v| <= k < |D| && 0 < m
    requires N == Value(b, D) < Pow(b, k) * m && 2 * m <= b <= 2 * v[|v| - 1]
    requires forall i | k + 1 <= i < |D| :: D[i] == 0
    ensures DivState(b, D, v, k + 1 - |v|, [], N)
  {
    var n := |v|;
    PushedOut(b, D, k, m);
    var W := D[k + 1 - n..k + 1];
    assert W[n - 1] == D[k] && W[n..] == v[n..];
    TopDifferenceDecides(b, W, v, n - 1);
    ValueTrim(b, D, k + 1);
  }

  lemma {:induction false} PushedOut(b: nat, D: seq<nat>, k: nat, m: nat)
    requires b > 1 && AreWords(b, D) && k < |D| && Value(b, D) < Pow(b, k) * m
    requires forall i | k + 1 <= i < |D| :: D[i] == 0
    ensures D[k] < m
  {
    ValueTrim(b, D, k + 1);
    ValueTop(b, D, k + 1);
    if D[k] >= m {
      MulMono(m, D[k], Pow(b, k));
      assert false;
    }
  }

  /** Undoing the normalization. */
  lemma {:induction false} Unnormalize(A: nat, d: nat, m: nat, Q: nat, R: nat)
    requires d > 0 && m > 0 && A * m == Q * (d * m) + R && R < d * m
    ensures Quot(A, d) == Q && Rem(A, d) == Quot(R, m)
  {
    var r := A - Q * d;
    MulAssoc(Q, d, m);
    MulDistSub(m, A, Q * d);
    assert R == r * m;
    if r < 0 {
      MulMono(r, -1, m);
      assert false;
    }
    if r >= d {
      MulMono(d, r, m);
      assert false;
    }
    QuotRemUnique(A, d, Q, r);
    QuotRemUnique(R, m, r, 0);
  }

  /** Step D1 on the divisor: its top word reaches half the base. */
  method NormalizeDivisor(w: nat, divisor: Span, n: nat) returns (shift: nat)
    requires w > 0 && divisor.Valid(Pow2(w)) && 0 < n <= divisor.size
    requires divisor.Words()[n - 1] != 0 && forall k | n <= k < divisor.size :: divisor.Words()[k] == 0
    modifies divisor.data
    ensures shift < w && divisor.Valid(Pow2(w)) && SameOutside(divisor, old(divisor.data[..]))
    ensures Value(Pow2(w), divisor.Words()) == Times(old(Value(Pow2(w), divisor.Words())), Pow2(shift))
    ensures Pow2(w) <= 2 * divisor.Words()[n - 1] && forall k | n <= k < divisor.size :: divisor.Words()[k] == 0
  {
    ghost var s := divisor.Words();
    assert divisor.data[divisor.start + n - 1] == s[n - 1];
    shift := CountLeadingZeroes(w, divisor.data[divisor.start + n - 1]);
    TimesIs(s[n - 1], Pow2(shift));
    TimesIs(Value(Pow2(w), s), Pow2(shift));
    MulMono(1, divisor.size, w);
    ShiftLeftWords(w, divisor, shift, divisor);
    NormalizedWords(w, s, n, shift, divisor.Words());
  }

  lemma {:induction false} NormalizedWords(w: nat, s: seq<nat>, n: nat, shift: nat, out: seq<nat>)
    requires w > 0 && AreWords(Pow2(w), s) && 0 < n <= |s| && forall i | n <= i < |s| :: s[i] == 0
    requires shift < w && Times(s[n - 1], Pow2(shift)) < Pow2(w) <= 2 * Times(s[n - 1], Pow2(shift))
    requires |out| == |s| && AreWords(Pow2(w), out)
    requires Value(Pow2(w), out) == Rem(Times(Value(Pow2(w), s), Pow2(shift)), Pow(Pow2(w), |s|))
    ensures Value(Pow2(w), out) == Times(Value(Pow2(w), s), Pow2(shift))
    ensures Pow2(w) <= 2 * out[n - 1] && forall k | n <= k < |out| :: out[k] == 0
  {
    NormalizedDivisor(w, s, n, shift);
    ShiftFits(Pow2(w), out, n, Times(Value(Pow2(w), s), Pow2(shift)));
    PowStep(2, w);
    TopHalf(Pow2(w), out, n);
  }

  /** Step D1 on the dividend, which has a spare word for what is shifted out. */
  method NormalizeDividend(w: nat, dividend: Span, dividendLen: nat, shift: nat, ghost v: seq<nat>)
    requires w > 0 && dividend.Valid(Pow2(w)) && shift < w && 0 < |v| <= dividendLen < dividend.size
    requires forall k | dividendLen <= k < dividend.size :: dividend.Words()[k] == 0
    requires AreWords(Pow2(w), v) && Pow2(w) <= 2 * v[|v| - 1]
    modifies dividend.data
    ensures dividend.Valid(Pow2(w)) && SameOutside(dividend, old(dividend.data[..]))
    ensures DivState(Pow2(w), dividend.Words(), v, dividendLen - |v| + 1, [], Times(old(Value(Pow2(w), dividend.Words())), Pow2(shift)))
  {
    ghost var s, b, m := dividend.Words(), Pow2(w), Pow2(shift);
    Pow2StrictlyMonotone(shift, w);
    NormalizedDividend(b, s, dividendLen, m);
    MulMono(1, dividend.size, w);
    ShiftLeftWords(w, dividend, shift, dividend);
    TimesIs(Value(b, s), m);
    ShiftFits(b, dividend.Words(), dividendLen + 1, Times(Value(b, s), m));
    FirstWindow(b, dividend.Words(), v, dividendLen, m, Times(Value(b, s), m));
  }

  /** What the callers of `div_mod_internal` set up. */
  ghost predicate Divisible(b: nat, dividend: Span, divisor: Span, quotient: Span, remainder: Span, dividendLen: nat, divisorLen: nat)
    reads dividend.data, divisor.data
  {
    && dividend.Valid(b) && divisor.Valid(b) && quotient.InBounds() && remainder.InBounds()
    && !dividend.signed && !divisor.signed
    && dividend.data != divisor.data && dividend.data != quotient.data && divisor.data != quotient.data
    && remainder.data != dividend.data && remainder.data != divisor.data && remainder.data != quotient.data
    && 2 <= divisorLen <= dividendLen < dividend.size && divisorLen <= divisor.size
    && dividendLen - divisorLen < quotient.size && divisorLen <= remainder.size <= dividend.size
    && divisor.Words()[divisorLen - 1] != 0
    && (forall k | divisorLen <= k < divisor.size :: divisor.Words()[k] == 0)
    && (forall k | dividendLen <= k < dividend.size :: dividend.Words()[k] == 0)
  }

  /** `div_mod_internal`: quotient and, on request, remainder; both operands are left normalized. The VERIFYs of
      the source are the assertions in DivideWindow and SubtractDigit. */
  method DivModInternal(w: nat, dividend: Span, divisor: Span, quotient: Span, remainder: Span,
                        dividendLen: nat, divisorLen: nat, restoreRemainder: bool)
    requires w > 0 && Divisible(Pow2(w), dividend, divisor, quotient, remainder, dividendLen, divisorLen)
    modifies dividend.data, divisor.data, quotient.data, remainder.data
    ensures var A, d := old(Value(Pow2(w), dividend.Words())), old(Value(Pow2(w), divisor.Words()));
            && d > 0
            && quotient.Valid(Pow2(w)) && Value(Pow2(w), quotient.Words()) == Quot(A, d)
            && (restoreRemainder ==> remainder.Valid(Pow2(w)) && Value(Pow2(w), remainder.Words()) == Rem(A, d))
  {
    ghost var d := Value(Pow2(w), divisor.Words());
    var shift := NormalizeDivisor(w, divisor, divisorLen);
    DivideNormalized(w, dividend, divisor, quotient, dividendLen, divisorLen, shift, d);
    if restoreRemainder {
      RestoreRemainder(w, dividend, remainder, divisorLen, shift);
    }
  }

  /** The rest of the division once the divisor is normalized by `shift`; d is what it stood for before. */
  method DivideNormalized(w: nat, dividend: Span, divisor: Span, quotient: Span, dividendLen: nat, n: nat, shift: nat, ghost d: nat)
    requires w > 0 && shift < w && dividend.Valid(Pow2(w)) && divisor.Valid(Pow2(w)) && quotient.InBounds()
    requires dividend.data != divisor.data && dividend.data != quotient.data && divisor.data != quotient.data
    requires !dividend.signed && !divisor.signed
    requires 2 <= n <= dividendLen < dividend.size && n <= divisor.size && dividendLen - n < quotient.size
    requires Value(Pow2(w), divisor.Words()) == Times(d, Pow2(shift))
    requires Pow2(w) <= 2 * divisor.Words()[n - 1] && forall k | n <= k < divisor.size :: divisor.Words()[k] == 0
    requires forall k | dividendLen <= k < dividend.size :: dividend.Words()[k] == 0
    modifies dividend.data, quotient.data
    ensures dividend.Valid(Pow2(w)) && quotient.Valid(Pow2(w)) && d > 0
    ensures forall k | n <= k < dividend.size :: dividend.Words()[k] == 0
    ensures var A := old(Value(Pow2(w), dividend.Words()));
            && Value(Pow2(w), quotient.Words()) == Quot(A, d)
            && Rem(A, d) == Quot(Value(Pow2(w), dividend.Words()[..n]), Pow2(shift))
  {
    ghost var v, A := divisor.Words()[..n], Value(Pow2(w), dividend.Words());
    ghost var N := Times(A, Pow2(shift));
    var b := Pow2(w);
    assert Value(b, v) == Times(d, Pow2(shift)) by { ValueTrim(b, divisor.Words(), n); }
    assert b % 2 == 0 by { PowStep(2, w); }
    NormalizeDividend(w, dividend, dividendLen, shift, v);
    ghost var qs := DivideAndClear(b, dividend, divisor, quotient, dividendLen, n, v, N);
    FinalState(b, dividend.Words(), v, qs, A, d, Pow2(shift), N);
  }

  /** The quotient digits, and zeros above them. */
  method DivideAndClear(b: nat, dividend: Span, divisor: Span, quotient: Span, dividendLen: nat, n: nat,
                        ghost v: seq<nat>, ghost N: int)
    returns (ghost qs: seq<nat>)
    requires b > 1 && b % 2 == 0 && dividend.Valid(b) && divisor.Valid(b) && quotient.InBounds()
    requires dividend.data != divisor.data && dividend.data != quotient.data && divisor.data != quotient.data
    requires !dividend.signed && !divisor.signed
    requires 2 <= n <= dividendLen < dividend.size && n <= divisor.size && dividendLen - n < quotient.size
    requires v == divisor.Words()[..n] && b <= 2 * v[n - 1]
    requires forall k | n <= k < divisor.size :: divisor.Words()[k] == 0
    requires DivState(b, dividend.Words(), v, dividendLen - n + 1, [], N)
    modifies dividend.data, quotient.data
    ensures dividend.InBounds() && quotient.Valid(b) && DivState(b, dividend.Words(), v, 0, qs, N)
    ensures Value(b, quotient.Words()) == Value(b, qs)
  {
    DivideDigits(b, dividend, divisor, quotient, dividendLen, n, v, N);
    qs := quotient.Words()[..dividendLen - n + 1];
    ghost var D := dividend.Words();
    ClearAbove(b, quotient, dividendLen - n + 1);
    assert dividend.Words() == D;
  }

  /** Step D8. */
  method RestoreRemainder(w: nat, dividend: Span, remainder: Span, n: nat, shift: nat)
    requires w > 0 && shift < w && dividend.Valid(Pow2(w)) && remainder.InBounds() && dividend.data != remainder.data
    requires 0 < n <= remainder.size <= dividend.size
    requires forall k | n <= k < dividend.size :: dividend.Words()[k] == 0
    modifies remainder.data
    ensures remainder.Valid(Pow2(w))
    ensures Value(Pow2(w), remainder.Words()) == Quot(Value(Pow2(w), dividend.Words()[..n]), Pow2(shift))
  {
    var trimmed := Span(dividend.data, dividend.start, remainder.size, false);
    assert trimmed.Words() == dividend.Words()[..remainder.size];
    RemainderWords(Pow2(w), dividend.Words(), n, remainder.size);
    MulMono(1, remainder.size, w);
    ShiftRightWords(w, trimmed, shift, remainder);
  }

  lemma {:induction false} RemainderWords(b: nat, D: seq<nat>, n: nat, size: nat)
    requires n <= size <= |D| && forall k | n <= k < |D| :: D[k] == 0
    ensures Value(b, D[..size]) == Value(b, D[..n])
  {
    assert D[..size][..n] == D[..n];
    ValueTrim(b, D[..size], n);
  }

  lemma {:induction false} FinalState(b: nat, D: seq<nat>, v: seq<nat>, qs: seq<nat>, A: nat, d: nat, m: nat, N: int)
    requires b > 0 && m > 0 && DivState(b, D, v, 0, qs, N) && N == Times(A, m) && Value(b, v) == Times(d, m)
    ensures d > 0 && Value(b, qs) == Quot(A, d) && Rem(A, d) == Quot(Value(b, D[..|v|]), m)
  {
    assert D[0..0 + |v|] == D[..|v|];
    TimesIs(Value(b, qs), 1);
    TimesIs(A, m);
    TimesIs(d, m);
    TimesIs(Value(b, qs), d * m);
    Unnormalize(A, d, m, Value(b, qs), Value(b, D[..|v|]));
  }

  /** The quotient words above the last digit are zeroed. */
  method ClearAbove(ghost b: nat, quotient: Span, n: nat)
    requires b > 0 && quotient.InBounds() && n <= quotient.size && AreWords(b, quotient.Words()[..n])
    modifies quotient.data
    ensures quotient.Valid(b) && SameOutside(quotient, old(quotient.data[..]))
    ensures quotient.Words()[..n] == old(quotient.Words())[..n]
    ensures Value(b, quotient.Words()) == Value(b, quotient.Words()[..n])
  {
    ghost var before := quotient.Words();
    for i := n to quotient.size
      invariant SameOutside(quotient, old(quotient.data[..]))
      invariant quotient.Words()[..n] == before[..n]
      invariant forall k | n <= k < i :: quotient.Words()[k] == 0
    {
      quotient.data[quotient.start + i] := 0;
    }
    ghost var after := quotient.Words();
    forall k | 0 <= k < |after| ensures after[k] < b {
      if k < n { assert after[k] == after[..n][k] == before[..n][k]; }
    }
    ValueTrim(b, after, n);
  }
}
