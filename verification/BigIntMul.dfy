/** Column-wise multiplication (`baseline_mul` in AK/BigIntBase.h). */
module BigIntMul {
  import opened Arith
  import BigIntAdd
  import opened BigIntSigned
  import opened BigIntWords

  ghost function Digit(s: seq<nat>, k: nat): nat {
    if k < |s| then s[k] else 0
  }

  /** The products of digits of weight k, the first `h` of them. */
  ghost function ColumnTo(s1: seq<nat>, s2: seq<nat>, k: nat, h: nat): nat
    requires h <= k + 1
  {
    if h == 0 then 0 else ColumnTo(s1, s2, k, h - 1) + Digit(s1, h - 1) * Digit(s2, k - (h - 1))
  }

  ghost function Column(s1: seq<nat>, s2: seq<nat>, k: nat): nat {
    ColumnTo(s1, s2, k, k + 1)
  }

  /** The columns of weight below n, weighed. */
  ghost function Columns(b: nat, s1: seq<nat>, s2: seq<nat>, n: nat): nat {
    if n == 0 then 0 else Columns(b, s1, s2, n - 1) + Column(s1, s2, n - 1) * Pow(b, n - 1)
  }

  /** The low n digits, weighed. */
  ghost function Low(b: nat, s: seq<nat>, n: nat): nat {
    if n == 0 then 0 else Low(b, s, n - 1) + Digit(s, n - 1) * Pow(b, n - 1)
  }

  lemma {:induction false} ColumnHead(s1: seq<nat>, s2: seq<nat>, k: nat, h: nat)
    requires s1 != [] && 0 < k && h <= k
    ensures ColumnTo(s1, s2, k, h + 1) == s1[0] * Digit(s2, k) + ColumnTo(s1[1..], s2, k - 1, h)
  {
    if h == 0 {
      assert ColumnTo(s1, s2, k, 0) == 0;
    } else {
      ColumnHead(s1, s2, k, h - 1);
    }
  }

  lemma {:induction false} ColumnsHead(b: nat, s1: seq<nat>, s2: seq<nat>, n: nat)
    requires s1 != [] && n > 0
    ensures Columns(b, s1, s2, n) == s1[0] * Low(b, s2, n) + b * Columns(b, s1[1..], s2, n - 1)
  {
    if n == 1 {
      assert ColumnTo(s1, s2, 0, 1) == ColumnTo(s1, s2, 0, 0) + s1[0] * Digit(s2, 0);
      assert Low(b, s2, 1) == Low(b, s2, 0) + Digit(s2, 0) * Pow(b, 0);
      assert Columns(b, s1, s2, 1) == Columns(b, s1, s2, 0) + Column(s1, s2, 0) * Pow(b, 0);
    } else {
      ColumnsHead(b, s1, s2, n - 1);
      ColumnHead(s1, s2, n - 1, n - 1);
      PowStep(b, n - 1);
      ColumnsHeadStep(b, Pow(b, n - 2), s1[0], Low(b, s2, n - 1), Digit(s2, n - 1),
                      Columns(b, s1[1..], s2, n - 2), Column(s1[1..], s2, n - 2));
    }
  }

  lemma {:induction false} ColumnsHeadStep(b: int, P: int, x: int, low: int, digit: int, rest: int, column: int)
    ensures (x * low + b * rest) + (x * digit + column) * (b * P) == x * (low + digit * (b * P)) + b * (rest + column * P)
  {
    MulDist(b * P, x * digit, column);
    MulAssoc(x, digit, b * P);
    MulDist(x, low, digit * (b * P));
    MulAssoc(column, b, P);
    MulAssoc(b, column, P);
    MulDist(b, rest, column * P);
  }

  lemma {:induction false} LowIsValue(b: nat, s: seq<nat>, n: nat) returns (h: nat)
    ensures Value(b, s) == Low(b, s, n) + Pow(b, n) * h
  {
    LowIsPrefix(b, s, if n < |s| then n else |s|);
    if n <= |s| {
      ValueSplit(b, s, n);
      h := Value(b, s[n..]);
    } else {
      assert s[..|s|] == s;
      LowPastEnd(b, s, n);
      h := 0;
    }
  }

  lemma {:induction false} LowIsPrefix(b: nat, s: seq<nat>, n: nat)
    requires n <= |s|
    ensures Low(b, s, n) == Value(b, s[..n])
  {
    if n > 0 {
      LowIsPrefix(b, s, n - 1);
      ValueStep(b, s, n - 1);
    }
  }

  lemma {:induction false} LowPastEnd(b: nat, s: seq<nat>, n: nat)
    requires n >= |s|
    ensures Low(b, s, n) == Low(b, s, |s|)
  {
    if n > |s| {
      LowPastEnd(b, s, n - 1);
    }
  }

  lemma {:induction false} EmptyColumns(b: nat, s2: seq<nat>, n: nat)
    ensures Columns(b, [], s2, n) == 0
  {
    if n > 0 {
      EmptyColumns(b, s2, n - 1);
      EmptyColumn(s2, n - 1, n);
    }
  }

  lemma {:induction false} EmptyColumn(s2: seq<nat>, k: nat, h: nat)
    requires h <= k + 1
    ensures ColumnTo([], s2, k, h) == 0
  {
    if h > 0 {
      EmptyColumn(s2, k, h - 1);
    }
  }

  /** The columns of weight below n make the product, up to a multiple of b^n. */
  lemma {:induction false} ColumnsMakeProduct(b: nat, s1: seq<nat>, s2: seq<nat>, n: nat) returns (q: nat)
    ensures Value(b, s1) * Value(b, s2) == Columns(b, s1, s2, n) + q * Pow(b, n)
  {
    if s1 == [] {
      EmptyColumns(b, s2, n);
      q := 0;
    } else if n == 0 {
      q := Times(Value(b, s1), Value(b, s2));
      TimesIs(Value(b, s1), Value(b, s2));
    } else {
      var q' := ColumnsMakeProduct(b, s1[1..], s2, n - 1);
      var h := LowIsValue(b, s2, n);
      ColumnsHead(b, s1, s2, n);
      ValueCons(b, s1);
      PowStep(b, n);
      TimesIs(s1[0], h);
      q := Times(s1[0], h) + q';
      ProductStep(b, Pow(b, n - 1), Pow(b, n), s1[0], Value(b, s1[1..]), Value(b, s1), Value(b, s2), Low(b, s2, n), h,
                  Columns(b, s1[1..], s2, n - 1), Columns(b, s1, s2, n), q', q);
    }
  }

  lemma {:induction false} ProductStep(b: int, P: int, P': int, x: int, v: int, v1: int, v2: int, low: int, h: int,
                                       columns: int, columns': int, q: int, q': int)
    requires v * v2 == columns + q * P && v2 == low + P' * h && P' == b * P
    requires v1 == x + b * v && columns' == x * low + b * columns && q' == x * h + q
    ensures v1 * v2 == columns' + q' * P'
  {
    calc {
      v1 * v2;
    ==  { MulDist(v2, x, b * v); MulAssoc(b, v, v2); }
      x * v2 + b * (columns + q * P);
    ==  { MulDist(x, low, h * P'); MulAssoc(x, h, P'); MulDist(b, columns, q * P); }
      x * low + (x * h) * P' + (b * columns + b * (q * P));
    ==  { MulAssoc(b, q, P); MulAssoc(q, b, P); }
      x * low + (x * h) * P' + b * columns + q * P';
    ==  { MulDist(P', x * h, q); }
      columns' + q' * P';
    }
  }

  // ---- the machine ----

  /** Adding one product to the running column: a word and a double-word carry, which would wrap at b * b. As
      long as the columns are shorter than b it never does. */
  method Accumulate(b: nat, word: nat, carry: nat, x: nat, y: nat, ghost size: nat, ghost carry0: nat, ghost n: nat)
    returns (word': nat, carry': nat)
    requires b > 1 && word < b && x < b && y < b
    requires carry0 <= size < b && n < size && carry <= carry0 + n * (b - 1)
    ensures word' < b && word' + carry' * b == word + carry * b + x * y
    ensures carry' <= carry0 + (n + 1) * (b - 1)
  {
    ProductBound(b, x, y);
    var low, high := SplitWords(b, x * y, b - 2);
    var step := AddWords(b, word, low, false);
    word' := step.word;
    carry' := WrapDouble(b, carry + (high + ToInt(step.carry)), size, carry0, n, carry);
    AccumulateEquation(b, word, carry, x * y, high, low, step.word, step.carry);
  }

  lemma {:induction false} ProductBound(b: nat, x: nat, y: nat)
    requires b > 1 && x < b && y < b
    ensures x * y < (b - 1) * b
  {
    MulMono(x, b - 1, y);
    MulStrictMono(y, b, b - 1);
  }

  lemma {:induction false} AccumulateEquation(b: int, word: int, carry: int, p: int, hi: int, lo: int, out: int, c: bool)
    requires p == hi * b + lo && out + Weigh(c, b) == word + lo
    ensures out + (carry + (hi + ToInt(c))) * b == word + carry * b + p
  {
    MulDist(b, carry, hi + ToInt(c));
    MulDist(b, hi, ToInt(c));
  }

  /** A double word wraps at b * b; a carry made of fewer than b words does not reach it. */
  method WrapDouble(b: nat, value: nat, ghost size: nat, ghost carry0: nat, ghost n: nat, ghost carry: nat) returns (r: nat)
    requires b > 1 && carry0 <= size < b && n < size && carry <= carry0 + n * (b - 1) && value <= carry + (b - 1)
    ensures r == value && r <= carry0 + (n + 1) * (b - 1)
  {
    assert value <= carry0 + (n + 1) * (b - 1) by { MulDist(b - 1, n, 1); }
    assert value < b * b by {
      MulMono(n + 1, size, b - 1);
      MulDistSub(size, b, 1);
      MulStrictMono(size, b, b);
    }
    QuotRemUnique(value, b * b, 0, value);
    r := Rem(value, b * b);
  }

  /** The index range of a column skips only zero digits, below it and above it. */
  lemma {:induction false} ColumnBelow(s1: seq<nat>, s2: seq<nat>, k: nat, h: nat)
    requires h <= k + 1 && h <= k + 1 - |s2|
    ensures ColumnTo(s1, s2, k, h) == 0
  {
    if h > 0 {
      ColumnBelow(s1, s2, k, h - 1);
    }
  }

  lemma {:induction false} ColumnAbove(s1: seq<nat>, s2: seq<nat>, k: nat, h: nat)
    requires |s1| <= h <= k + 1
    ensures ColumnTo(s1, s2, k, h) == Column(s1, s2, k)
    decreases k + 1 - h
  {
    if h <= k {
      ColumnAbove(s1, s2, k, h + 1);
    }
  }

  /** The products of one column, added up. */
  method MulRange(b: nat, operand1: Span, operand2: Span, i: nat, startIndex: nat, endIndex: nat,
                  size: nat, word0: nat, carry0: nat) returns (word: nat, carry: nat)
    requires b > 1 && operand1.Valid(b) && operand2.Valid(b)
    requires startIndex <= endIndex <= operand1.size && endIndex <= i + 1 && i < startIndex + operand2.size
    requires endIndex - startIndex <= size && word0 < b && carry0 <= size < b
    ensures word < b && carry <= carry0 + (endIndex - startIndex) * (b - 1)
    ensures word + carry * b + ColumnTo(operand1.Words(), operand2.Words(), i, startIndex)
         == word0 + carry0 * b + ColumnTo(operand1.Words(), operand2.Words(), i, endIndex)
  {
    ghost var s1, s2 := operand1.Words(), operand2.Words();
    word, carry := word0, carry0;
    for j := startIndex to endIndex
      invariant word < b
      invariant carry <= carry0 + (j - startIndex) * (b - 1)
      invariant word + carry * b + ColumnTo(s1, s2, i, startIndex) == word0 + carry0 * b + ColumnTo(s1, s2, i, j)
    {
      var x, y := operand1.data[operand1.start + j], operand2.data[operand2.start + (i - j)];
      assert x == s1[j] && y == s2[i - j];
      word, carry := Accumulate(b, word, carry, x, y, size, carry0, j - startIndex);
    }
  }

  /** One column of `baseline_mul`: the code's index bounds lose no digit product. */
  method MulColumn(b: nat, operand1: Span, size1: nat, operand2: Span, size2: nat, i: nat, word0: nat, carry0: nat)
    returns (word: nat, carry: nat)
    requires b > 1 && operand1.Valid(b) && operand2.Valid(b)
    requires size1 <= operand1.size && size2 <= operand2.size && 0 < size2 < b
    requires size1 == operand1.size || i < size1
    requires size2 == operand2.size || i < size2
    requires word0 < b && carry0 <= size2
    ensures word < b && carry <= size2 * b
    ensures word + carry * b == word0 + carry0 * b + Column(operand1.Words(), operand2.Words(), i)
  {
    ghost var s1, s2 := operand1.Words(), operand2.Words();
    var startIndex := if i >= size2 then i - size2 + 1 else 0;
    var endIndex := if i + 1 < size1 then i + 1 else size1;
    ColumnBounds(s1, s2, size1, size2, i);
    if startIndex < endIndex {
      word, carry := MulRange(b, operand1, operand2, i, startIndex, endIndex, size2, word0, carry0);
      RangeBound(b, size2, endIndex - startIndex);
    } else {
      word, carry := word0, carry0;
      RangeBound(b, size2, 0);
    }
  }

  lemma {:induction false} RangeBound(b: nat, size2: nat, n: nat)
    requires b > 1 && n <= size2
    ensures size2 + n * (b - 1) <= size2 * b
  {
    MulMono(n, size2, b - 1);
    MulDistSub(size2, b, 1);
  }

  /** The index bounds of column i cover every product that is not zero. */
  lemma {:induction false} ColumnBounds(s1: seq<nat>, s2: seq<nat>, size1: nat, size2: nat, i: nat)
    requires size1 <= |s1| && 0 < size2 <= |s2|
    requires size1 == |s1| || i < size1
    requires size2 == |s2| || i < size2
    ensures var startIndex := if i >= size2 then i - size2 + 1 else 0;
            var endIndex := if i + 1 < size1 then i + 1 else size1;
            if startIndex < endIndex then
              ColumnTo(s1, s2, i, startIndex) == 0 && ColumnTo(s1, s2, i, endIndex) == Column(s1, s2, i)
            else
              Column(s1, s2, i) == 0
  {
    var startIndex := if i >= size2 then i - size2 + 1 else 0;
    var endIndex := if i + 1 < size1 then i + 1 else size1;
    if i >= size2 {
      ColumnBelow(s1, s2, i, startIndex);
    }
    if startIndex < endIndex {
      if endIndex <= i {
        ColumnAbove(s1, s2, i, endIndex);
      }
    } else if startIndex <= i {
      ColumnAbove(s1, s2, i, startIndex);
    }
  }

  /** `out` holds the product of the two operands modulo its size. */
  ghost predicate IsProduct(b: nat, s1: seq<nat>, s2: seq<nat>, out: seq<nat>)
    requires b > 0
  {
    Value(b, out) == Rem(Value(b, s1) * Value(b, s2), Pow(b, |out|))
  }

  /** The columns so far: their words stored, the rest in the carry. */
  ghost predicate ColumnsStored(b: nat, out: seq<nat>, carry: nat, s1: seq<nat>, s2: seq<nat>) {
    && AreWords(b, out)
    && Value(b, out) + carry * Pow(b, |out|) == Columns(b, s1, s2, |out|)
  }

  lemma {:induction false} ColumnsStoredStep(b: nat, out: seq<nat>, carry: nat, s1: seq<nat>, s2: seq<nat>, word: nat, carry': nat)
    requires b > 1 && ColumnsStored(b, out, carry, s1, s2) && word < b
    requires word + carry' * b == carry + Column(s1, s2, |out|)
    ensures ColumnsStored(b, out + [word], carry', s1, s2)
  {
    var P := Pow(b, |out|);
    ValueAppend(b, out, word);
    PowStep(b, |out| + 1);
    MulAssoc(carry', b, P);
    MulDist(P, word, carry' * b);
    MulDist(P, carry, Column(s1, s2, |out|));
  }

  lemma {:induction false} ProductFromColumns(b: nat, out: seq<nat>, carry: nat, s1: seq<nat>, s2: seq<nat>)
    requires b > 1 && ColumnsStored(b, out, carry, s1, s2)
    ensures IsProduct(b, s1, s2, out)
  {
    var q := ColumnsMakeProduct(b, s1, s2, |out|);
    ValueBound(b, out);
    MulDist(Pow(b, |out|), q, carry);
    QuotRemUnique(Value(b, s1) * Value(b, s2), Pow(b, |out|), q + carry, Value(b, out));
  }

  /** One turn of the schoolbook loop: the low word of the carry seeds the column, the rest is carried on. */
  method NextColumn(b: nat, operand1: Span, size1: nat, operand2: Span, size2: nat, i: nat, carry: nat, ghost out: seq<nat>)
    returns (word: nat, carry': nat)
    requires b > 1 && operand1.Valid(b) && operand2.Valid(b)
    requires size1 <= operand1.size && size2 <= operand2.size && 0 < size2 < b
    requires size1 == operand1.size || i < size1
    requires size2 == operand2.size || i < size2
    requires |out| == i && carry <= size2 * b && ColumnsStored(b, out, carry, operand1.Words(), operand2.Words())
    ensures carry' <= size2 * b && ColumnsStored(b, out + [word], carry', operand1.Words(), operand2.Words())
  {
    MulDist(b, size2, 1);
    var low, high := SplitWords(b, carry, size2);
    word, carry' := MulColumn(b, operand1, size1, operand2, size2, i, low, high);
    ColumnsStoredStep(b, out, carry, operand1.Words(), operand2.Words(), word, carry');
  }

  /** The schoolbook loop, for a first operand at least as long as the second. */
  method MulColumns(b: nat, operand1: Span, operand2: Span, result: Span)
    requires b > 1 && operand1.Valid(b) && operand2.Valid(b) && result.InBounds()
    requires 0 < operand2.size <= operand1.size && operand2.size < b
    requires operand1.data != result.data && operand2.data != result.data
    modifies result.data
    ensures result.Valid(b) && SameOutside(result, old(result.data[..]))
    ensures IsProduct(b, old(operand1.Words()), old(operand2.Words()), result.Words())
  {
    ghost var s1, s2 := operand1.Words(), operand2.Words();
    var size := result.size;
    var size1 := if operand1.size < size then operand1.size else size;
    var size2 := if operand2.size < size then operand2.size else size;
    var carry: nat := 0;
    ghost var out: seq<nat> := [];
    for i := 0 to size
      invariant out == result.data[result.start..result.start + i] && SameOutside(result, old(result.data[..]))
      invariant operand1.Words() == s1 && operand2.Words() == s2
      invariant carry <= size2 * b
      invariant ColumnsStored(b, out, carry, s1, s2)
    {
      var word, carry' := NextColumn(b, operand1, size1, operand2, size2, i, carry, out);
      result.data[result.start + i] := word;
      carry := carry';
      out := out + [word];
    }
    ProductFromColumns(b, out, carry, s1, s2);
    assert out == result.Words();
  }

  /** The one-word by one-word case, left to a double-word multiplication. The words are multiplied as they are; the
      signs show only in the words after the first two. */
  method MulWords(b: nat, x: nat, y: nat, negative: bool, result: Span)
    requires b > 1 && x < b && y < b && result.InBounds() && result.size > 0
    modifies result.data
    ensures result.Valid(b) && SameOutside(result, old(result.data[..]))
    ensures result.size == 1 ==> exists high: nat :: DiffersBy(x * y, Value(b, result.Words()), b, high)
    ensures result.size > 1 ==> Value(b, result.Words()) == x * y + Weigh(negative, Pow(b, result.size) - b * b)
  {
    ProductBound(b, x, y);
    var low, high := SplitWords(b, x * y, b - 2);
    result.data[result.start] := low;
    if result.size > 1 {
      result.data[result.start + 1] := high;
      var fill := ExtendSign(b, negative);
      for i := 2 to result.size
        invariant SameOutside(result, old(result.data[..]))
        invariant result.data[result.start] == low && result.data[result.start + 1] == high
        invariant forall k | result.start + 2 <= k < result.start + i :: result.data[k] == fill
      {
        result.data[result.start + i] := fill;
      }
    }
    FilledWords(b, x * y, low, high, negative, result.Words());
  }

  lemma {:induction false} FilledWords(b: nat, value: nat, low: nat, high: nat, negative: bool, s: seq<nat>)
    requires b > 1 && |s| > 0 && value == low + high * b && low < b && high < b && s[0] == low
    requires |s| > 1 ==> s[1] == high
    requires forall k | 2 <= k < |s| :: s[k] == ExtendSign(b, negative)
    ensures AreWords(b, s)
    ensures |s| == 1 ==> DiffersBy(value, Value(b, s), b, high)
    ensures |s| > 1 ==> Value(b, s) == value + Weigh(negative, Pow(b, |s|) - b * b)
  {
    if |s| == 1 {
      ValueOne(b, low);
      assert s == [low];
    } else {
      assert Value(b, s[..2]) == value by {
        ValueCons(b, s[..2]);
        assert s[..2][1..] == [high];
        ValueOne(b, high);
      }
      ValueSplit(b, s, 2);
      FillValue(b, negative, s[2..]);
      FillWeight(b, |s| - 2, |s|, negative);
    }
  }

  lemma {:induction false} FillWeight(b: nat, m: nat, n: nat, negative: bool)
    requires b > 1 && n == 2 + m
    ensures Pow(b, 2) * Weigh(negative, Pow(b, m) - 1) == Weigh(negative, Pow(b, n) - b * b)
  {
    PowStep(b, 2);
    PowStep(b, 1);
    PowAdd(b, 2, m);
    MulDistSub(Pow(b, 2), Pow(b, m), 1);
  }

  lemma {:induction false} FillValue(b: nat, negative: bool, s: seq<nat>)
    requires b > 1 && forall k | 0 <= k < |s| :: s[k] == ExtendSign(b, negative)
    ensures Value(b, s) == Weigh(negative, Pow(b, |s|) - 1)
  {
    if negative {
      ValueOfFill(b, s);
    } else {
      ValueZeros(b, s);
    }
  }

  /** The words of an operand without its sign: the operand itself, or its two's complement in a new storage. */
  method WithoutSign(b: nat, operand: Span) returns (r: Span)
    requires b > 1 && operand.Valid(b) && operand.size > 0
    ensures r == operand || fresh(r.data)
    ensures r.Valid(b) && r.size == operand.size
    ensures Value(b, r.Words()) == Magnitude(b, operand.Words(), operand.signed)
  {
    if operand.Negative(b) {
      ghost var s := operand.Words();
      var inverted := new nat[operand.size];
      r := Span(inverted, 0, operand.size, false);
      var nonzero := BigIntAdd.Negate(b, operand, r);
      NegativeIsNonZero(b, s, operand.signed);
      assert operand.Words() == s;
    } else {
      r := operand;
    }
  }

  lemma {:induction false} NegativeIsNonZero(b: nat, s: seq<nat>, signed: bool)
    requires b > 1 && AreWords(b, s) && |s| > 0 && IsNegative(b, s, signed)
    ensures Value(b, s) != 0
  {
    assert s[..|s|] == s;
    ValueTop(b, s, |s|);
    MulMono(1, s[|s| - 1], Pow(b, |s| - 1));
  }

  /** `baseline_mul` from the normalization of the signs on, for a first operand at least as long as the second. */
  method MulSigned(b: nat, operand1: Span, operand2: Span, result: Span)
    requires b > 1 && operand1.Valid(b) && operand2.Valid(b) && result.InBounds()
    requires 0 < operand2.size <= operand1.size && operand2.size < b
    requires operand1.data != result.data && operand2.data != result.data
    modifies result.data
    ensures result.Valid(b) && SameOutside(result, old(result.data[..]))
    ensures IsSignedProduct(b, old(operand1.Words()), operand1.signed, old(operand2.Words()), operand2.signed, result.Words())
  {
    ghost var s1, s2 := operand1.Words(), operand2.Words();
    if operand2.size < result.size {
      var negative := operand1.Negative(b) != operand2.Negative(b);
      MulMagnitudes(b, operand1, operand2, result);
      ghost var p := Magnitude(b, s1, operand1.signed) * Magnitude(b, s2, operand2.signed);
      MagnitudesMultiply(b, s1, operand1.signed, s2, operand2.signed);
      if negative {
        NegateProduct(b, result, p);
      }
    } else {
      MulColumns(b, operand1, operand2, result);
      LongOperands(b, s1, operand1.signed, s2, operand2.signed, result.Words());
    }
  }

  /** The product of the operands without their signs. */
  method MulMagnitudes(b: nat, operand1: Span, operand2: Span, result: Span)
    requires b > 1 && operand1.Valid(b) && operand2.Valid(b) && result.InBounds()
    requires 0 < operand2.size <= operand1.size && operand2.size < b
    requires operand1.data != result.data && operand2.data != result.data
    modifies result.data
    ensures result.Valid(b) && SameOutside(result, old(result.data[..]))
    ensures var p := Magnitude(b, old(operand1.Words()), operand1.signed) * Magnitude(b, old(operand2.Words()), operand2.signed);
            Congruent(Value(b, result.Words()), p, Pow(b, result.size))
  {
    var data1 := WithoutSign(b, operand1);
    var data2 := WithoutSign(b, operand2);
    ghost var v1, v2 := Value(b, data1.Words()), Value(b, data2.Words());
    MulColumns(b, data1, data2, result);
    TimesIs(v1, v2);
    RemCongruent(Times(v1, v2), Pow(b, result.size));
  }

  method NegateProduct(b: nat, result: Span, ghost p: int)
    requires b > 1 && result.Valid(b) && Congruent(Value(b, result.Words()), p, Pow(b, result.size))
    modifies result.data
    ensures result.Valid(b) && SameOutside(result, old(result.data[..]))
    ensures Congruent(Value(b, result.Words()), -p, Pow(b, result.size))
  {
    ghost var v := Value(b, result.Words());
    var nonzero := BigIntAdd.Negate(b, result, result);
    NegatedCongruent(v, Value(b, result.Words()), p, Pow(b, result.size), nonzero);
  }

  /** The one-word case, where it is right and where not. */
  method MulSingle(b: nat, operand1: Span, operand2: Span, result: Span)
    requires b > 1 && operand1.Valid(b) && operand2.Valid(b) && result.InBounds() && result.size > 0
    requires operand1.signed && operand2.signed ==> b % 2 == 0
    requires operand1.size == 1 && operand2.size == 1
    requires operand1.data != result.data && operand2.data != result.data
    modifies result.data
    ensures result.Valid(b) && SameOutside(result, old(result.data[..]))
    ensures IsSignedProduct(b, old(operand1.Words()), operand1.signed, old(operand2.Words()), operand2.signed, result.Words())
      <==> SingleWordsRight(b, old(operand1.Words())[0], old(operand1.Negative(b)), old(operand2.Words())[0], old(operand2.Negative(b)), result.size)
  {
    var x, y := operand1.data[operand1.start], operand2.data[operand2.start];
    var sign1, sign2 := operand1.Negative(b), operand2.Negative(b);
    assert operand1.Words() == [x] && operand2.Words() == [y];
    MulWords(b, x, y, sign1 != sign2, result);
    SingleIntegers(b, x, operand1.signed, y, operand2.signed, result.Words());
  }

  lemma {:induction false} SingleIntegers(b: nat, x: nat, signed1: bool, y: nat, signed2: bool, out: seq<nat>)
    requires b > 1 && x < b && y < b && |out| > 0 && (signed1 && signed2 ==> b % 2 == 0)
    requires |out| == 1 ==> exists high: nat :: DiffersBy(x * y, Value(b, out), b, high)
    requires |out| > 1 ==>
      Value(b, out) == x * y + Weigh(IsNegative(b, [x], signed1) != IsNegative(b, [y], signed2), Pow(b, |out|) - b * b)
    ensures IsSignedProduct(b, [x], signed1, [y], signed2, out)
      <==> SingleWordsRight(b, x, IsNegative(b, [x], signed1), y, IsNegative(b, [y], signed2), |out|)
  {
    var negative1, negative2 := IsNegative(b, [x], signed1), IsNegative(b, [y], signed2);
    PowStep(b, 1);
    ValueOne(b, x);
    ValueOne(b, y);
    if |out| == 1 {
      var high: nat :| DiffersBy(x * y, Value(b, out), b, high);
      LowWordRight(b, x, negative1, y, negative2, Value(b, out), high);
    } else {
      SingleWordsExact(b, x, negative1, y, negative2, |out|, Value(b, out));
    }
  }

  /** `baseline_mul`: the product of the two integers modulo the size of the result, whatever their signs and lengths,
      except for some signed single words. The size limit of the source (2^26 or 2^29 words) keeps the shorter operand
      far below b words. */
  method BaselineMul(b: nat, operand1: Span, operand2: Span, result: Span)
    requires b > 1 && operand1.Valid(b) && operand2.Valid(b) && result.InBounds()
    requires operand1.signed && operand2.signed ==> b % 2 == 0
    requires 0 < operand1.size < b && 0 < operand2.size < b && result.size > 0
    requires operand1.data != result.data && operand2.data != result.data
    modifies result.data
    ensures result.Valid(b) && SameOutside(result, old(result.data[..]))
    ensures IsSignedProduct(b, old(operand1.Words()), operand1.signed, old(operand2.Words()), operand2.signed, result.Words())
      <==> (operand1.size == 1 && operand2.size == 1 ==>
              SingleWordsRight(b, old(operand1.Words())[0], old(operand1.Negative(b)), old(operand2.Words())[0], old(operand2.Negative(b)), result.size))
    ensures !operand1.signed && !operand2.signed ==>
      IsProduct(b, old(operand1.Words()), old(operand2.Words()), result.Words())
  {
    ghost var s1, s2 := operand1.Words(), operand2.Words();
    if operand1.size == 1 && operand2.size == 1 {
      MulSingle(b, operand1, operand2, result);
    } else if operand1.size < operand2.size {
      MulSigned(b, operand2, operand1, result);
      SignedProductCommutes(b, s2, operand2.signed, s1, operand1.signed, result.Words());
    } else {
      MulSigned(b, operand1, operand2, result);
    }
    if !operand1.signed && !operand2.signed {
      UnsignedProduct(b, s1, s2, result.Words());
    }
  }

  lemma {:induction false} SignedProductCommutes(b: nat, s1: seq<nat>, signed1: bool, s2: seq<nat>, signed2: bool, out: seq<nat>)
    requires b > 1 && |s1| > 0 && |s2| > 0 && IsSignedProduct(b, s1, signed1, s2, signed2, out)
    ensures IsSignedProduct(b, s2, signed2, s1, signed1, out)
  {
    var x, y := Integer(b, s1, signed1), Integer(b, s2, signed2);
    assert x * y == y * x;
  }

  lemma {:induction false} UnsignedProduct(b: nat, s1: seq<nat>, s2: seq<nat>, out: seq<nat>)
    requires b > 1 && |s1| > 0 && |s2| > 0 && AreWords(b, out) && IsSignedProduct(b, s1, false, s2, false, out)
    ensures IsProduct(b, s1, s2, out)
  {
    ValueBound(b, out);
    CongruentIsRem(Value(b, out), Value(b, s1) * Value(b, s2), Pow(b, |out|));
  }

  /** Minus one times one, in single words, into two words: the second word is zero instead of the sign. */
  method MinusOneTimesOne(b: nat) returns (result: Span)
    requires b > 1 && b % 2 == 0
    ensures result.Valid(b) && result.size == 2 && Integer(b, result.Words(), true) != -1
  {
    var minusOne, one, out := new nat[1](_ => b - 1), new nat[1](_ => 1), new nat[2];
    var x, y := Span(minusOne, 0, 1, true), Span(one, 0, 1, false);
    result := Span(out, 0, 2, true);
    assert x.Words() == [b - 1] && y.Words() == [1];
    BaselineMul(b, x, y, result);
    OneWordIntegers(b, result.Words());
  }

  lemma {:induction false} OneWordIntegers(b: nat, out: seq<nat>)
    requires b > 1 && b % 2 == 0 && |out| == 2 && !IsSignedProduct(b, [b - 1], true, [1], false, out)
    ensures Integer(b, out, true) != -1
  {
    PowStep(b, 1);
    ValueOne(b, b - 1);
    ValueOne(b, 1);
    assert Integer(b, [b - 1], true) == -1 && Integer(b, [1], false) == 1;
    IntegerCongruent(b, out, true, 2);
  }
}
