/** Little-endian word sequences, the integers they stand for, and the storage spans the multi-word
    operations of AK/BigIntBase.h work on. The word base b is symbolic: 2^32 or 2^64 in the source. */
module BigIntWords {
  import opened Arith

  ghost predicate AreWords(b: nat, s: seq<nat>) {
    forall i | 0 <= i < |s| :: s[i] < b
  }

  /** The unsigned integer a word sequence stands for, least significant word first. */
  ghost function Value(b: nat, s: seq<nat>): nat {
    ValueFrom(b, s, 0)
  }

  ghost function ValueFrom(b: nat, s: seq<nat>, i: nat): nat
    requires i <= |s|
    decreases |s| - i
  {
    if i == |s| then 0 else s[i] + Times(b, ValueFrom(b, s, i + 1))
  }

  lemma {:induction false} ValueCons(b: nat, s: seq<nat>)
    requires s != []
    ensures Value(b, s) == s[0] + b * Value(b, s[1..])
  {
    ValueOfRest(b, s, 0);
    TimesIs(b, Value(b, s[1..]));
  }

  lemma {:induction false} ValueOfRest(b: nat, s: seq<nat>, i: nat)
    requires i < |s|
    ensures ValueFrom(b, s, i + 1) == ValueFrom(b, s[1..], i)
    decreases |s| - i
  {
    if i + 1 < |s| {
      ValueOfRest(b, s, i + 1);
    }
  }

  lemma {:induction false} ValueConcat(b: nat, s: seq<nat>, t: seq<nat>)
    ensures Value(b, s + t) == Value(b, s) + Pow(b, |s|) * Value(b, t)
  {
    if s == [] {
      assert s + t == t;
    } else {
      assert (s + t)[1..] == s[1..] + t;
      ValueConcat(b, s[1..], t);
      ValueCons(b, s);
      ValueCons(b, s + t);
      PowStep(b, |s|);
      MulDist(b, Value(b, s[1..]), Pow(b, |s| - 1) * Value(b, t));
      MulAssoc(b, Pow(b, |s| - 1), Value(b, t));
    }
  }

  lemma {:induction false} TakeAll(s: seq<nat>)
    ensures s[..|s|] == s
  {
  }

  lemma {:induction false} ValueOne(b: nat, x: nat)
    ensures Value(b, [x]) == x
  {
    ValueCons(b, [x]);
  }

  lemma {:induction false} ValueAppend(b: nat, s: seq<nat>, x: nat)
    ensures Value(b, s + [x]) == Value(b, s) + x * Pow(b, |s|)
  {
    ValueConcat(b, s, [x]);
    ValueOne(b, x);
  }

  /** Extending a prefix by its next word. */
  lemma {:induction false} ValueStep(b: nat, s: seq<nat>, i: nat)
    requires i < |s|
    ensures Value(b, s[..i + 1]) == Value(b, s[..i]) + s[i] * Pow(b, i)
  {
    assert s[..i + 1] == s[..i] + [s[i]];
    ValueAppend(b, s[..i], s[i]);
  }

  lemma {:induction false} ValueSplit(b: nat, s: seq<nat>, i: nat)
    requires i <= |s|
    ensures Value(b, s) == Value(b, s[..i]) + Pow(b, i) * Value(b, s[i..])
  {
    assert s == s[..i] + s[i..];
    ValueConcat(b, s[..i], s[i..]);
  }

  lemma {:induction false} ValueBound(b: nat, s: seq<nat>)
    requires AreWords(b, s)
    ensures Value(b, s) < Pow(b, |s|)
  {
    if s != [] {
      ValueBound(b, s[1..]);
      ValueCons(b, s);
      PowStep(b, |s|);
      MulMono(Value(b, s[1..]) + 1, Pow(b, |s| - 1), b);
      MulDist(b, Value(b, s[1..]), 1);
    }
  }

  lemma {:induction false} ValueZeros(b: nat, s: seq<nat>)
    requires forall i | 0 <= i < |s| :: s[i] == 0
    ensures Value(b, s) == 0
  {
    if s != [] {
      ValueZeros(b, s[1..]);
      ValueCons(b, s);
    }
  }

  /** Words above `n` that are zero do not count. */
  lemma {:induction false} ValueTrim(b: nat, s: seq<nat>, n: nat)
    requires n <= |s| && forall i | n <= i < |s| :: s[i] == 0
    ensures Value(b, s) == Value(b, s[..n])
  {
    ValueSplit(b, s, n);
    ValueZeros(b, s[n..]);
  }

  /** The top word brackets the value. */
  lemma {:induction false} ValueTop(b: nat, s: seq<nat>, n: nat)
    requires AreWords(b, s) && 0 < n <= |s|
    ensures s[n - 1] * Pow(b, n - 1) <= Value(b, s[..n]) < (s[n - 1] + 1) * Pow(b, n - 1)
  {
    ValueStep(b, s, n - 1);
    ValueBound(b, s[..n - 1]);
    MulDist(Pow(b, n - 1), s[n - 1], 1);
  }

  // ---- signed reading ----

  /** `StorageSpan::is_negative`: the top bit of the last word, when the storage is signed. */
  predicate IsNegative(b: nat, s: seq<nat>, signed: bool)
    requires |s| > 0 && b > 1
  {
    signed && s[|s| - 1] >= b / 2
  }

  /** The integer a storage stands for: two's complement if signed. */
  ghost function Integer(b: nat, s: seq<nat>, signed: bool): int
    requires |s| > 0 && b > 1
  {
    Value(b, s) - Weigh(IsNegative(b, s, signed), Pow(b, |s|))
  }

  function ToInt(c: bool): (r: int)
  {
    if c then 1 else 0
  }

  /** A carry of weight p. */
  function Weigh(c: bool, p: int): (r: int)
  {
    if c then p else 0
  }

  /** `extend_sign`. */
  function ExtendSign(b: nat, negative: bool): (fill: nat)
    requires b > 0
  {
    if negative then b - 1 else 0
  }

  /** The words continued to n words with a fill word, or cut to them. */
  ghost function ExtendWith(s: seq<nat>, fill: nat, n: nat): (r: seq<nat>)
    ensures |r| == n
    ensures forall i | 0 <= i < n :: r[i] == if i < |s| then s[i] else fill
  {
    if n <= |s| then s[..n] else s + seq(n - |s|, i => fill)
  }

  /** The operand continued to n words with its sign, or cut to them. */
  ghost function Extend(b: nat, s: seq<nat>, signed: bool, n: nat): seq<nat>
    requires |s| > 0 && b > 1
  {
    ExtendWith(s, ExtendSign(b, IsNegative(b, s, signed)), n)
  }

  lemma {:induction false} ValueOfFill(b: nat, s: seq<nat>)
    requires b > 0 && forall i | 0 <= i < |s| :: s[i] == b - 1
    ensures Value(b, s) == Pow(b, |s|) - 1
  {
    if s != [] {
      ValueOfFill(b, s[1..]);
      ValueCons(b, s);
      PowStep(b, |s|);
      MulDistSub(b, Pow(b, |s| - 1), 1);
    }
  }

  /** Sign extension keeps the integer, read modulo the wider size. */
  lemma {:induction false} ExtendValue(b: nat, s: seq<nat>, signed: bool, n: nat)
    requires b > 1 && 0 < |s| <= n
    ensures Value(b, Extend(b, s, signed, n))
         == Integer(b, s, signed) + Weigh(IsNegative(b, s, signed), Pow(b, n))
  {
    var x := Extend(b, s, signed, n);
    assert x[..|s|] == s;
    ValueSplit(b, x, |s|);
    if IsNegative(b, s, signed) {
      ValueOfFill(b, x[|s|..]);
      PowAdd(b, |s|, n - |s|);
      MulDistSub(Pow(b, |s|), Pow(b, n - |s|), 1);
    } else {
      ValueZeros(b, x[|s|..]);
    }
  }

  /** The range a storage of n words can represent. */
  ghost predicate Representable(b: nat, n: nat, signed: bool, v: int) {
    if signed then 0 <= 2 * v + Pow(b, n) < 2 * Pow(b, n) else 0 <= v < Pow(b, n)
  }

  lemma {:induction false} EvenPow(b: nat, n: nat)
    requires b % 2 == 0 && n > 0
    ensures Pow(b, n) == 2 * ((b / 2) * Pow(b, n - 1))
  {
    PowStep(b, n);
    MulAssoc(2, b / 2, Pow(b, n - 1));
  }

  /** A storage holds a representable integer. */
  lemma {:induction false} IntegerRepresentable(b: nat, s: seq<nat>, signed: bool)
    requires b > 1 && b % 2 == 0 && |s| > 0 && AreWords(b, s)
    ensures Representable(b, |s|, signed, Integer(b, s, signed))
  {
    var n := |s|;
    ValueBound(b, s);
    if signed {
      assert s[..n] == s;
      ValueTop(b, s, n);
      EvenPow(b, n);
      if IsNegative(b, s, true) {
        MulMono(b / 2, s[n - 1], Pow(b, n - 1));
      } else {
        MulMono(s[n - 1] + 1, b / 2, Pow(b, n - 1));
      }
    }
  }

  /** Two representable integers that agree modulo the size are equal. */
  lemma {:induction false} RepresentableUnique(b: nat, n: nat, signed: bool, v: int, c: int, r: int)
    requires b > 0 && Representable(b, n, signed, c) && v == c + r * Pow(b, n)
    ensures r == 0 <==> Representable(b, n, signed, v)
  {
    if r > 0 {
      MulMono(1, r, Pow(b, n));
    } else if r < 0 {
      MulMono(r, -1, Pow(b, n));
    }
  }

  // ---- single-word steps ----

  /** A word and the carry or borrow out of it. */
  datatype WordCarry = WordCarry(word: nat, carry: bool)

  /** `add_words`: wrapping sum of two words and the carry. */
  function AddWords(b: nat, x: nat, y: nat, carry: bool): (r: WordCarry)
    requires x < b && y < b
    ensures r.word < b && r.word + Weigh(r.carry, b) == x + y + ToInt(carry)
  {
    var output := if x + y >= b then x + y - b else x + y;
    var ncarry := x + y >= b;
    if carry then
      var bumped := if output + 1 == b then 0 else output + 1;
      WordCarry(bumped, ncarry || bumped == 0)
    else
      WordCarry(output, ncarry)
  }

  /** `sub_words`: wrapping difference of two words and the borrow. */
  function SubWords(b: nat, x: nat, y: nat, borrow: bool): (r: WordCarry)
    requires x < b && y < b
    ensures r.word < b && r.word - Weigh(r.carry, b) == x - y - ToInt(borrow)
  {
    var output := if x < y then x + b - y else x - y;
    var nborrow := x < y;
    if borrow then
      WordCarry(if output == 0 then b - 1 else output - 1, nborrow || output == 0)
    else
      WordCarry(output, nborrow)
  }

  // ---- double words ----

  /** The low word of a double word, and the double word shifted down by one word. */
  method SplitWords(b: nat, value: nat, ghost bound: nat) returns (low: nat, high: nat)
    requires b > 1 && value < (bound + 1) * b
    ensures value == low + high * b && low < b && high <= bound
  {
    low, high := Rem(value, b), Quot(value, b);
    QuotRem(value, b);
    QuotLt(value, b, bound + 1);
  }

  // ---- storages ----

  /** `StorageSpan`: a window on a word array, read as signed or unsigned. */
  datatype Span = Span(data: array<nat>, start: nat, size: nat, signed: bool)
  {
    ghost predicate InBounds() {
      start + size <= data.Length
    }

    ghost function Words(): seq<nat>
      requires InBounds()
      reads data
    {
      data[..][start..start + size]
    }

    ghost predicate Valid(b: nat)
      reads data
    {
      InBounds() && AreWords(b, Words())
    }

    /** `is_negative`. */
    predicate Negative(b: nat)
      requires InBounds() && size > 0 && b > 1
      reads data
      ensures Negative(b) == IsNegative(b, Words(), signed)
    {
      signed && data[start + size - 1] >= b / 2
    }

    /** Another array, or exactly the same place: the aliasing `add` and the shifts tolerate. */
    ghost predicate Aligned(result: Span) {
      data != result.data || start == result.start
    }
  }

  /** The words outside the window stayed as in `before`. */
  ghost predicate SameOutside(span: Span, before: seq<nat>)
    reads span.data
  {
    |before| == span.data.Length
    && forall k | 0 <= k < span.data.Length && !(span.start <= k < span.start + span.size)
         :: span.data[k] == before[k]
  }
}
