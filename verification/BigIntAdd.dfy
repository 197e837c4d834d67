/** Addition, subtraction, negation and comparison of multi-word integers
    (`StorageOperations::add`, `negate`, `compare` in AK/BigIntBase.h). */
module BigIntAdd {
  import opened Arith
  import opened BigIntWords

  /** x * (-1) ** subtract. */
  function Signed(subtract: bool, x: int): (r: int)
  {
    if subtract then -x else x
  }

  /** One word of `add` or `subtract` with its carry. */
  function StepWords(b: nat, x: nat, y: nat, carry: bool, subtract: bool): (r: WordCarry)
    requires x < b && y < b
    ensures r.word < b && r.word + Signed(subtract, Weigh(r.carry, b)) == x + Signed(subtract, y + ToInt(carry))
  {
    if subtract then SubWords(b, x, y, carry) else AddWords(b, x, y, carry)
  }

  /** Weighing one word step by P = b^i extends the running equation by one word. */
  lemma {:induction false} CarryStep(b: nat, P: nat, subtract: bool, v: int, x: int, y: int, c: bool, out: int, w1: int, w2: int, c': bool)
    requires v + Signed(subtract, Weigh(c, P)) == x + Signed(subtract, y)
    requires out + Signed(subtract, Weigh(c', b)) == w1 + Signed(subtract, w2 + ToInt(c))
    ensures (v + out * P) + Signed(subtract, Weigh(c', b * P)) == (x + w1 * P) + Signed(subtract, y + w2 * P)
  {
    var d, e := Signed(subtract, Weigh(c', b)), Signed(subtract, w2 + ToInt(c));
    SignedTimes(subtract, Weigh(c', b), P);
    SignedTimes(subtract, w2 + ToInt(c), P);
    WeighTimes(c', b, P);
    WeighTimes(c, 1, P);
    MulDist(P, out, d);
    MulDist(P, w1, e);
    MulDist(P, w2, ToInt(c));
  }

  lemma {:induction false} SignedTimes(subtract: bool, x: int, P: int)
    ensures Signed(subtract, x) * P == Signed(subtract, x * P)
  {
  }

  lemma {:induction false} WeighTimes(c: bool, x: int, P: int)
    ensures Weigh(c, x) * P == Weigh(c, x * P)
  {
  }

  /** The words stored and the carry out of them. */
  datatype WordsCarry = WordsCarry(words: seq<nat>, carry: bool)

  /** The first i words of the sum or difference of x and y, and the carry out of them. */
  ghost function AddPrefix(b: nat, x: seq<nat>, y: seq<nat>, i: nat, subtract: bool, carryIn: bool): (r: WordsCarry)
    requires i <= |x| == |y| && AreWords(b, x) && AreWords(b, y)
    ensures |r.words| == i && AreWords(b, r.words)
  {
    if i == 0 then WordsCarry([], carryIn)
    else
      var WordsCarry(out, carry) := AddPrefix(b, x, y, i - 1, subtract, carryIn);
      var WordCarry(word, carry') := StepWords(b, x[i - 1], y[i - 1], carry, subtract);
      WordsCarry(out + [word], carry')
  }

  lemma {:induction false} AddPrefixValue(b: nat, x: seq<nat>, y: seq<nat>, i: nat, subtract: bool, carryIn: bool)
    requires i <= |x| == |y| && AreWords(b, x) && AreWords(b, y)
    ensures var WordsCarry(out, carry) := AddPrefix(b, x, y, i, subtract, carryIn);
            AddedSoFar(b, x, y, i, subtract, carryIn, out, carry)
  {
    if i > 0 {
      var j: nat := i - 1;
      AddPrefixValue(b, x, y, j, subtract, carryIn);
      var WordsCarry(out, carry) := AddPrefix(b, x, y, j, subtract, carryIn);
      var WordCarry(word, carry') := StepWords(b, x[j], y[j], carry, subtract);
      AddedOneMore(b, x, y, j, i, subtract, carryIn, out, carry, word, carry');
    }
  }

  /** The words stored and the carry are the sum or difference of the first i words. */
  ghost predicate AddedSoFar(b: nat, x: seq<nat>, y: seq<nat>, i: nat, subtract: bool, carryIn: bool, out: seq<nat>, carry: bool)
    requires i <= |x| == |y|
  {
    Value(b, out) + Signed(subtract, Weigh(carry, Pow(b, i)))
      == Value(b, x[..i]) + Signed(subtract, Value(b, y[..i]) + ToInt(carryIn))
  }

  lemma {:induction false} AddedOneMore(b: nat, x: seq<nat>, y: seq<nat>, j: nat, i: nat, subtract: bool, carryIn: bool,
                                        out: seq<nat>, carry: bool, word: nat, carry': bool)
    requires i == j + 1 <= |x| == |y| && |out| == j && x[j] < b && y[j] < b
    requires AddedSoFar(b, x, y, j, subtract, carryIn, out, carry)
    requires WordCarry(word, carry') == StepWords(b, x[j], y[j], carry, subtract)
    ensures AddedSoFar(b, x, y, i, subtract, carryIn, out + [word], carry')
  {
    ValueStep(b, x, j);
    ValueStep(b, y, j);
    ValueAppend(b, out, word);
    PowStep(b, i);
    CarryStep(b, Pow(b, j), subtract, Value(b, out), Value(b, x[..j]), Value(b, y[..j]) + ToInt(carryIn),
              carry, word, x[j], y[j], carry');
  }

  lemma {:induction false} AddWhole(b: nat, x: seq<nat>, y: seq<nat>, subtract: bool, carryIn: bool, out: seq<nat>, carry: bool)
    requires |x| == |y| && AreWords(b, x) && AreWords(b, y) && WordsCarry(out, carry) == AddPrefix(b, x, y, |x|, subtract, carryIn)
    ensures Value(b, out) + Signed(subtract, Weigh(carry, Pow(b, |x|)))
         == Value(b, x) + Signed(subtract, Value(b, y) + ToInt(carryIn))
  {
    TakeAll(x);
    TakeAll(y);
    AddPrefixValue(b, x, y, |x|, subtract, carryIn);
  }

  /** Word i of an operand, or its fill word past the end. */
  function OperandWord(operand: Span, fill: nat, i: nat): nat
    requires operand.InBounds()
    reads operand.data
  {
    if i < operand.size then operand.data[operand.start + i] else fill
  }

  lemma {:induction false} OperandWords(operand: Span, fill: nat, n: nat)
    requires operand.InBounds()
    ensures var x := ExtendWith(operand.Words(), fill, n);
            forall i | 0 <= i < n :: x[i] == OperandWord(operand, fill, i)
  {
  }

  lemma {:induction false} WordsAre(span: Span, words: seq<nat>)
    requires span.InBounds() && |words| == span.size
    requires forall k | span.start <= k < span.start + span.size :: span.data[k] == words[k - span.start]
    ensures span.Words() == words
  {
  }

  /** The word loop shared by `add` and `subtract`. */
  method AddLoop(b: nat, operand1: Span, fill1: nat, operand2: Span, fill2: nat, result: Span,
                 subtract: bool, carryIn: bool, ghost x: seq<nat>, ghost y: seq<nat>)
    returns (carry: bool)
    requires b > 1
    requires operand1.InBounds() && operand2.InBounds() && result.InBounds()
    requires operand1.Aligned(result) && operand2.Aligned(result)
    requires AreWords(b, x) && AreWords(b, y)
    requires |x| == |y| == result.size
    requires forall i | 0 <= i < |x| :: x[i] == OperandWord(operand1, fill1, i)
    requires forall i | 0 <= i < |y| :: y[i] == OperandWord(operand2, fill2, i)
    modifies result.data
    ensures SameOutside(result, old(result.data[..]))
    ensures WordsCarry(result.Words(), carry) == AddPrefix(b, x, y, result.size, subtract, carryIn)
  {
    carry := carryIn;
    ghost var out: seq<nat> := [];
    for i := 0 to result.size
      invariant WordsCarry(out, carry) == AddPrefix(b, x, y, i, subtract, carryIn)
      invariant forall k | 0 <= k < result.data.Length
                  :: result.data[k] == if result.start <= k < result.start + i then out[k - result.start] else old(result.data[k])
    {
      var word1, word2 := OperandWord(operand1, fill1, i), OperandWord(operand2, fill2, i);
      assert word1 == x[i] && word2 == y[i];
      var step := StepWords(b, word1, word2, carry, subtract);
      result.data[result.start + i] := step.word;
      carry := step.carry;
      out := out + [step.word];
    }
    WordsAre(result, out);
  }

  /** The return expression of `add`. */
  function Overflow(sign1: bool, sign2: bool, carry: bool, negative: bool, subtract: bool): int {
    if subtract then -ToInt(sign1) + ToInt(sign2) - ToInt(carry) + ToInt(negative)
    else -ToInt(sign1) - ToInt(sign2) + ToInt(carry) + ToInt(negative)
  }

  /** a + b * (-1) ** subtract, with the incoming carry counted with b. */
  ghost function Exact(b: nat, s1: seq<nat>, signed1: bool, s2: seq<nat>, signed2: bool,
                       subtract: bool, carryIn: bool): int
    requires b > 1 && |s1| > 0 && |s2| > 0
  {
    Integer(b, s1, signed1) + Signed(subtract, Integer(b, s2, signed2) + ToInt(carryIn))
  }

  /** The documented contract of `add`: the exact integer is c + r * 2 ** (size * word_size), so that r is
      zero precisely when the exact integer fits. */
  ghost predicate Contract(b: nat, exact: int, out: seq<nat>, signed: bool, r: int)
    requires b > 1 && |out| > 0
  {
    && exact == Integer(b, out, signed) + r * Pow(b, |out|)
    && (r == 0 <==> Representable(b, |out|, signed, exact))
  }

  lemma {:induction false} AddExactIntegers(P: int, subtract: bool, i1: int, n1: bool, i2: int, n2: bool, cin: bool, v: int, carry: bool, n: bool, r: int)
    requires v + Signed(subtract, Weigh(carry, P))
          == (i1 + Weigh(n1, P)) + Signed(subtract, (i2 + Weigh(n2, P)) + ToInt(cin))
    requires r == Overflow(n1, n2, carry, n, subtract)
    ensures i1 + Signed(subtract, i2 + ToInt(cin)) == (v - Weigh(n, P)) + r * P
  {
  }

  lemma {:induction false} AddEquation(b: nat, s1: seq<nat>, signed1: bool, s2: seq<nat>, signed2: bool, n: nat,
                    v: nat, negative: bool, subtract: bool, carryIn: bool, carry: bool, r: int)
    requires b > 1 && 0 < |s1| <= n && 0 < |s2| <= n
    requires v + Signed(subtract, Weigh(carry, Pow(b, n)))
          == Value(b, Extend(b, s1, signed1, n)) + Signed(subtract, Value(b, Extend(b, s2, signed2, n)) + ToInt(carryIn))
    requires r == Overflow(IsNegative(b, s1, signed1), IsNegative(b, s2, signed2), carry, negative, subtract)
    ensures Exact(b, s1, signed1, s2, signed2, subtract, carryIn) == v - Weigh(negative, Pow(b, n)) + r * Pow(b, n)
  {
    ExtendValue(b, s1, signed1, n);
    ExtendValue(b, s2, signed2, n);
    AddExactIntegers(Pow(b, n), subtract, Integer(b, s1, signed1), IsNegative(b, s1, signed1),
                     Integer(b, s2, signed2), IsNegative(b, s2, signed2), carryIn, v, carry, negative, r);
  }

  lemma {:induction false} ContractFromEquation(b: nat, exact: int, out: seq<nat>, signed: bool, r: int)
    requires b > 1 && b % 2 == 0 && |out| > 0 && AreWords(b, out)
    requires exact == Integer(b, out, signed) + r * Pow(b, |out|)
    ensures Contract(b, exact, out, signed, r)
  {
    IntegerRepresentable(b, out, signed);
    RepresentableUnique(b, |out|, signed, exact, Integer(b, out, signed), r);
  }

  /** The words `add` stores meet its documented contract. */
  lemma {:induction false} AddMeetsContract(b: nat, s1: seq<nat>, signed1: bool, s2: seq<nat>, signed2: bool, n: nat, signed: bool,
                         subtract: bool, carryIn: bool)
    requires b > 1 && b % 2 == 0 && 0 < |s1| <= n && 0 < |s2| <= n && AreWords(b, s1) && AreWords(b, s2)
    ensures var x, y := Extend(b, s1, signed1, n), Extend(b, s2, signed2, n);
            AreWords(b, x) && AreWords(b, y) &&
            var WordsCarry(out, carry) := AddPrefix(b, x, y, n, subtract, carryIn);
            Contract(b, Exact(b, s1, signed1, s2, signed2, subtract, carryIn), out, signed,
                     Overflow(IsNegative(b, s1, signed1), IsNegative(b, s2, signed2), carry, IsNegative(b, out, signed), subtract))
  {
    var x, y := Extend(b, s1, signed1, n), Extend(b, s2, signed2, n);
    ExtendIsWords(b, s1, signed1, n);
    ExtendIsWords(b, s2, signed2, n);
    var WordsCarry(out, carry) := AddPrefix(b, x, y, n, subtract, carryIn);
    AddWhole(b, x, y, subtract, carryIn, out, carry);
    var negative := IsNegative(b, out, signed);
    var r := Overflow(IsNegative(b, s1, signed1), IsNegative(b, s2, signed2), carry, negative, subtract);
    AddEquation(b, s1, signed1, s2, signed2, n, Value(b, out), negative, subtract, carryIn, carry, r);
    ContractFromEquation(b, Exact(b, s1, signed1, s2, signed2, subtract, carryIn), out, signed, r);
  }

  lemma {:induction false} ExtendIsWords(b: nat, s: seq<nat>, signed: bool, n: nat)
    requires b > 1 && |s| > 0 && AreWords(b, s)
    ensures AreWords(b, Extend(b, s, signed, n))
  {
  }

  /** Without signs in play the return value is the carry out of the words added. */
  lemma {:induction false} UnsignedCarry(b: nat, x: seq<nat>, y: seq<nat>, subtract: bool, carryIn: bool, out: seq<nat>, carry: bool)
    requires |x| == |y| && AreWords(b, x) && AreWords(b, y) && WordsCarry(out, carry) == AddPrefix(b, x, y, |x|, subtract, carryIn)
    ensures Value(b, x) + Signed(subtract, Value(b, y) + ToInt(carryIn))
            == Value(b, out) + Overflow(false, false, carry, false, subtract) * Pow(b, |x|)
  {
    AddWhole(b, x, y, subtract, carryIn, out, carry);
    OverflowIsCarry(carry, subtract, Pow(b, |x|));
  }

  lemma {:induction false} OverflowIsCarry(carry: bool, subtract: bool, P: int)
    ensures Overflow(false, false, carry, false, subtract) * P == Signed(subtract, Weigh(carry, P))
  {
  }

  /** `add<subtract>`: word-wise sum or difference with sign extension of the shorter operand. The result
      may be stored over an operand. */
  method Add(b: nat, operand1: Span, operand2: Span, result: Span, subtract: bool, carryIn: bool)
    returns (r: int)
    requires b > 1 && b % 2 == 0
    requires operand1.Valid(b) && operand2.Valid(b) && result.InBounds()
    requires operand1.size > 0 && operand2.size > 0 && result.size > 0
    requires operand1.Aligned(result) && operand2.Aligned(result)
    modifies result.data
    ensures result.Valid(b) && SameOutside(result, old(result.data[..]))
    // Whatever the sizes, without signs in play r is the carry out of the words added.
    ensures !operand1.signed && !operand2.signed && !result.signed ==>
              Value(b, old(Extend(b, operand1.Words(), false, result.size)))
              + Signed(subtract, Value(b, old(Extend(b, operand2.Words(), false, result.size))) + ToInt(carryIn))
              == Value(b, result.Words()) + r * Pow(b, result.size)
    ensures operand1.size <= result.size && operand2.size <= result.size ==>
              Contract(b, old(Exact(b, operand1.Words(), operand1.signed, operand2.Words(), operand2.signed, subtract, carryIn)),
                       result.Words(), result.signed, r)
  {
    ghost var s1, s2, n := operand1.Words(), operand2.Words(), result.size;
    ghost var x, y := Extend(b, s1, operand1.signed, n), Extend(b, s2, operand2.signed, n);
    ExtendIsWords(b, s1, operand1.signed, n);
    ExtendIsWords(b, s2, operand2.signed, n);
    var sign1, sign2 := operand1.Negative(b), operand2.Negative(b);
    var fill1, fill2 := ExtendSign(b, sign1), ExtendSign(b, sign2);
    OperandWords(operand1, fill1, n);
    OperandWords(operand2, fill2, n);
    var carry := AddLoop(b, operand1, fill1, operand2, fill2, result, subtract, carryIn, x, y);
    r := Overflow(sign1, sign2, carry, result.Negative(b), subtract);
    if operand1.size <= n && operand2.size <= n {
      AddMeetsContract(b, s1, operand1.signed, s2, operand2.signed, n, result.signed, subtract, carryIn);
    }
    if !operand1.signed && !operand2.signed && !result.signed {
      UnsignedCarry(b, x, y, subtract, carryIn, result.Words(), carry);
    }
  }

  lemma {:induction false} NegateValue(b: nat, x: seq<nat>, y: seq<nat>, out: seq<nat>, carry: bool)
    requires b > 1 && |x| == |y| && AreWords(b, x) && AreWords(b, y) && forall i | 0 <= i < |x| :: x[i] == 0
    requires WordsCarry(out, carry) == AddPrefix(b, x, y, |x|, true, false)
    ensures carry <==> Value(b, y) != 0
    ensures Value(b, out) + Value(b, y) == Weigh(carry, Pow(b, |x|))
  {
    AddWhole(b, x, y, true, false, out, carry);
    ValueZeros(b, x);
    ValueBound(b, y);
    ValueBound(b, out);
    NegateIntegers(Pow(b, |x|), Value(b, y), Value(b, out), carry);
  }

  lemma {:induction false} NegateIntegers(P: int, y: int, out: int, carry: bool)
    requires 0 <= y < P && 0 <= out < P && 0 - y == out - Weigh(carry, P)
    ensures (carry <==> y != 0) && out + y == Weigh(carry, P)
  {
  }

  /** `negate`: two's complement in place or into another storage; returns whether the operand is non-zero. */
  method Negate(b: nat, operand: Span, result: Span) returns (nonzero: bool)
    requires b > 1
    requires operand.Valid(b) && result.InBounds() && result.size == operand.size
    requires operand.Aligned(result)
    modifies result.data
    ensures result.Valid(b) && SameOutside(result, old(result.data[..]))
    ensures nonzero <==> old(Value(b, operand.Words())) != 0
    ensures Value(b, result.Words()) + old(Value(b, operand.Words())) == Weigh(nonzero, Pow(b, operand.size))
  {
    ghost var y := operand.Words();
    ghost var x := seq<nat>(result.size, i => 0);
    nonzero := AddLoop(b, Span(operand.data, operand.start, 0, false), 0, operand, 0, result, true, false, x, y);
    NegateValue(b, x, y, result.Words(), nonzero);
  }

  // ---- comparison ----

  /** The first difference from the top decides. */
  lemma {:induction false} TopDifferenceDecides(b: nat, x: seq<nat>, y: seq<nat>, i: nat)
    requires b > 0 && AreWords(b, x) && AreWords(b, y) && |x| == |y| && i < |x|
    requires x[i + 1..] == y[i + 1..] && x[i] < y[i]
    ensures Value(b, x) < Value(b, y)
  {
    var high := Pow(b, i + 1) * Value(b, x[i + 1..]);
    assert Value(b, x) == Value(b, x[..i + 1]) + high by { ValueSplit(b, x, i + 1); }
    assert Value(b, y) == Value(b, y[..i + 1]) + high by { ValueSplit(b, y, i + 1); }
    assert Value(b, x[..i + 1]) < Value(b, y[..i + 1]) by {
      ValueTop(b, x, i + 1);
      ValueTop(b, y, i + 1);
      MulMono(x[i] + 1, y[i], Pow(b, i));
    }
  }

  /** A word above the other operand's size that is not the fill word decides on its own. */
  lemma {:induction false} HighWordDecides(b: nat, x: seq<nat>, y: seq<nat>, low: nat, fill: nat)
    requires b > 0 && AreWords(b, x) && AreWords(b, y) && low < |x| == |y|
    requires fill == 0 || fill == b - 1
    requires forall k | low <= k < |y| :: y[k] == fill
    requires exists k :: low <= k < |x| && x[k] != fill
    ensures fill == 0 ==> Value(b, x) > Value(b, y)
    ensures fill != 0 ==> Value(b, x) < Value(b, y)
    decreases |x|
  {
    var n := |x| - 1;
    if x[n] != fill {
      assert x[n + 1..] == y[n + 1..];
      if fill == 0 {
        TopDifferenceDecides(b, y, x, n);
      } else {
        TopDifferenceDecides(b, x, y, n);
      }
    } else {
      var k :| low <= k < |x| && x[k] != fill;
      assert x[..n][k] != fill;
      HighWordDecides(b, x[..n], y[..n], low, fill);
      ValueStep(b, x, n);
      ValueStep(b, y, n);
      assert x[..n + 1] == x && y[..n + 1] == y;
    }
  }

  /** Does any word from `low` on differ from `fill`? (the loops at the head of `compare`) */
  method DifferInHighBits(operand: Span, low: nat, fill: nat) returns (differ: bool)
    requires operand.InBounds() && low <= operand.size
    ensures differ <==> exists k :: low <= k < operand.size && operand.Words()[k] != fill
  {
    differ := false;
    var i := operand.size;
    while i > low
      invariant low <= i <= operand.size
      invariant differ <==> exists k :: i <= k < operand.size && operand.Words()[k] != fill
    {
      i := i - 1;
      ghost var was := differ;
      if operand.data[operand.start + i] != fill {
        differ := true;
        assert operand.Words()[i] != fill;
      }
    }
  }

  /** What `compare` reports about two integers. */
  ghost predicate Compares(r: int, a: int, c: int, isForInequality: bool) {
    && -1 <= r <= 1
    && (r == 0 <==> a == c)
    && (!isForInequality ==> (r == 1 <==> a > c) && (r == -1 <==> a < c))
  }

  /** The low words decide when the high words agree. */
  method CompareLow(b: nat, operand1: Span, operand2: Span, n: nat, isForInequality: bool,
                    ghost x: seq<nat>, ghost y: seq<nat>) returns (r: int)
    requires b > 0 && operand1.InBounds() && operand2.InBounds() && n <= operand1.size && n <= operand2.size
    requires AreWords(b, x) && AreWords(b, y) && n <= |x| == |y|
    requires operand1.Words()[..n] == x[..n] && operand2.Words()[..n] == y[..n] && x[n..] == y[n..]
    ensures Compares(r, Value(b, x), Value(b, y), isForInequality)
  {
    var i := n;
    while i > 0
      invariant 0 <= i <= n
      invariant x[i..] == y[i..]
    {
      i := i - 1;
      var word1, word2 := operand1.data[operand1.start + i], operand2.data[operand2.start + i];
      assert word1 == operand1.Words()[..n][i] == x[i] && word2 == operand2.Words()[..n][i] == y[i];
      if word1 != word2 {
        if word1 < word2 {
          TopDifferenceDecides(b, x, y, i);
        } else {
          TopDifferenceDecides(b, y, x, i);
        }
        return if isForInequality then 1 else if word1 > word2 then 1 else -1;
      }
      assert x[i..] == [x[i]] + x[i + 1..] && y[i..] == [y[i]] + y[i + 1..];
    }
    assert x == x[0..] && y == y[0..];
    r := 0;
  }

  /** Same-sign operands compare as their extensions to a common size do. */
  lemma {:induction false} SameSignDifference(b: nat, s1: seq<nat>, signed1: bool, s2: seq<nat>, signed2: bool, n: nat)
    requires b > 1 && 0 < |s1| <= n && 0 < |s2| <= n
    requires IsNegative(b, s1, signed1) == IsNegative(b, s2, signed2)
    ensures Integer(b, s1, signed1) - Integer(b, s2, signed2)
         == Value(b, Extend(b, s1, signed1, n)) - Value(b, Extend(b, s2, signed2, n))
  {
    ExtendValue(b, s1, signed1, n);
    ExtendValue(b, s2, signed2, n);
  }

  /** A negative integer is below zero, any other is not. */
  lemma {:induction false} NegativeMeansBelowZero(b: nat, s: seq<nat>, signed: bool)
    requires b > 1 && |s| > 0 && AreWords(b, s)
    ensures IsNegative(b, s, signed) <==> Integer(b, s, signed) < 0
  {
    ValueBound(b, s);
  }

  /** The high words of the longer of two same-sign operands, when not all fill words, decide. */
  lemma {:induction false} LongerDecides(b: nat, s1: seq<nat>, signed1: bool, s2: seq<nat>, signed2: bool, negative: bool)
    requires b > 1 && 0 < |s2| < |s1| && AreWords(b, s1) && AreWords(b, s2)
    requires IsNegative(b, s1, signed1) == IsNegative(b, s2, signed2) == negative
    requires exists k :: |s2| <= k < |s1| && s1[k] != ExtendSign(b, negative)
    ensures if negative then Integer(b, s1, signed1) < Integer(b, s2, signed2)
            else Integer(b, s1, signed1) > Integer(b, s2, signed2)
  {
    var n := |s1|;
    var x, y := Extend(b, s1, signed1, n), Extend(b, s2, signed2, n);
    ExtendIsWords(b, s1, signed1, n);
    ExtendIsWords(b, s2, signed2, n);
    SameSignDifference(b, s1, signed1, s2, signed2, n);
    var k :| |s2| <= k < |s1| && s1[k] != ExtendSign(b, negative);
    assert x[k] != ExtendSign(b, negative);
    HighWordDecides(b, x, y, |s2|, ExtendSign(b, negative));
  }

  lemma {:induction false} SameHighWords(s1: seq<nat>, s2: seq<nat>, fill: nat, low: nat, n: nat)
    requires low <= |s1| <= n && low <= |s2| <= n && (low == |s1| || low == |s2|)
    requires forall k | low <= k < |s1| :: s1[k] == fill
    requires forall k | low <= k < |s2| :: s2[k] == fill
    ensures var x, y := ExtendWith(s1, fill, n), ExtendWith(s2, fill, n);
            s1[..low] == x[..low] && s2[..low] == y[..low] && x[low..] == y[low..]
  {
  }

  /** `compare` for operands of the same sign whose extra high words are all fill words. */
  method CompareWords(b: nat, operand1: Span, operand2: Span, isForInequality: bool) returns (r: int)
    requires b > 1 && operand1.Valid(b) && operand2.Valid(b) && operand1.size > 0 && operand2.size > 0
    requires operand1.Negative(b) == operand2.Negative(b)
    requires forall k | operand2.size <= k < operand1.size :: operand1.Words()[k] == ExtendSign(b, operand1.Negative(b))
    requires forall k | operand1.size <= k < operand2.size :: operand2.Words()[k] == ExtendSign(b, operand1.Negative(b))
    ensures Compares(r, Integer(b, operand1.Words(), operand1.signed), Integer(b, operand2.Words(), operand2.signed),
                     isForInequality)
  {
    ghost var s1, s2 := operand1.Words(), operand2.Words();
    ghost var n := if operand1.size > operand2.size then operand1.size else operand2.size;
    ghost var x, y := Extend(b, s1, operand1.signed, n), Extend(b, s2, operand2.signed, n);
    ExtendIsWords(b, s1, operand1.signed, n);
    ExtendIsWords(b, s2, operand2.signed, n);
    SameSignDifference(b, s1, operand1.signed, s2, operand2.signed, n);
    var low := if operand1.size > operand2.size then operand2.size else operand1.size;
    SameHighWords(s1, s2, ExtendSign(b, operand1.Negative(b)), low, n);
    r := CompareLow(b, operand1, operand2, low, isForInequality, x, y);
  }

  /** `compare`: the sign of the difference of the integers the storages stand for. With `isForInequality`
      only equality is told apart. */
  method Compare(b: nat, operand1: Span, operand2: Span, isForInequality: bool) returns (r: int)
    requires b > 1 && operand1.Valid(b) && operand2.Valid(b) && operand1.size > 0 && operand2.size > 0
    ensures Compares(r, Integer(b, operand1.Words(), operand1.signed), Integer(b, operand2.Words(), operand2.signed),
                     isForInequality)
  {
    var sign1, sign2 := operand1.Negative(b), operand2.Negative(b);
    var size1, size2 := operand1.size, operand2.size;
    if sign1 != sign2 {
      NegativeMeansBelowZero(b, operand1.Words(), operand1.signed);
      NegativeMeansBelowZero(b, operand2.Words(), operand2.signed);
      return if sign1 then -1 else 1;
    }
    var compareValue := ExtendSign(b, sign1);
    var differInHighBits := false;
    if size1 > size2 {
      differInHighBits := DifferInHighBits(operand1, size2, compareValue);
      if differInHighBits {
        LongerDecides(b, operand1.Words(), operand1.signed, operand2.Words(), operand2.signed, sign1);
      }
    } else if size1 < size2 {
      differInHighBits := DifferInHighBits(operand2, size1, compareValue);
      if differInHighBits {
        LongerDecides(b, operand2.Words(), operand2.signed, operand1.Words(), operand1.signed, sign1);
      }
    }
    if differInHighBits {
      return if (size1 > size2) != sign1 then 1 else -1;
    }
    r := CompareWords(b, operand1, operand2, isForInequality);
  }
}
