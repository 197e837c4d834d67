/** The shift-or search and `memmem_optional` of AK/MemMem.h. A u32 is modelled by its 32 bits. */
module Bitap {
  import opened Basics
  import opened BitSeq
  import opened MemMem

  const WIDTH: nat := 32

  /** Bit j of the mask for byte c is clear exactly where the needle has c, among its first n bytes. */
  ghost predicate Masks(mask: seq<Bits>, needle: seq<Byte>, n: nat) {
    && |mask| == 256 && n <= |needle| && (forall c: nat | c < 256 :: |mask[c]| == WIDTH)
    && forall c: nat, j: nat | c < 256 && j < WIDTH :: mask[c][j] == !(j < n && needle[j] == c)
  }

  /** The needle masks. */
  method PrepareMasks(needle: seq<Byte>) returns (mask: seq<Bits>)
    requires |needle| < 32
    ensures Masks(mask, needle, |needle|)
  {
    mask := seq(256, _ => Ones(WIDTH));
    var i := 0;
    while i < |needle|
      invariant 0 <= i <= |needle| && Masks(mask, needle, i)
    {
      var c := needle[i];
      mask := mask[c := And(mask[c], Not(Bit(WIDTH, i)))];
      i := i + 1;
    }
  }

  /** The first j bytes of the needle are the last j before position i. */
  ghost predicate Suffix(h: seq<Byte>, i: int, p: seq<Byte>, j: int) {
    0 <= j <= |p| && j <= i <= |h| && Agree(h, i - j, p, 0, j)
  }

  lemma {:induction false} SuffixOn(h: seq<Byte>, i: int, p: seq<Byte>, j: int, i': int, j': int)
    requires 0 <= i < |h| && 0 <= j < |p| && i' == i + 1 && j' == j + 1
    ensures Suffix(h, i', p, j') <==> Suffix(h, i, p, j) && p[j] == h[i]
  {
    if Suffix(h, i', p, j') {
      assert SameAt(h, i' - j', p, 0, i);
    }
  }

  /** Clear bits are matching prefixes of the needle. */
  ghost predicate Looks(lookup: Bits, h: seq<Byte>, i: int, p: seq<Byte>)
    requires |p| < 32 == |lookup|
  {
    forall j: nat | j <= |p| :: !lookup[j] <==> Suffix(h, i, p, j)
  }

  lemma {:induction false} LooksOn(lookup: Bits, mask: seq<Bits>, h: seq<Byte>, i: int, p: seq<Byte>, i': int, lookup': Bits)
    requires |p| < 32 == |lookup| && 0 <= i < |h| && i' == i + 1 && Looks(lookup, h, i, p) && Masks(mask, p, |p|)
    requires lookup' == ShiftLeft(Or(lookup, mask[h[i]]), 1)
    ensures |lookup'| == WIDTH && Looks(lookup', h, i', p)
  {
    forall j: nat | j <= |p| ensures !lookup'[j] <==> Suffix(h, i', p, j) {
      if j > 0 {
        SuffixOn(h, i, p, j - 1, i', j);
        assert lookup'[j] == (lookup[j - 1] || mask[h[i]][j - 1]);
      }
    }
  }

  /** One byte of the haystack: the bit looked at is clear exactly when an occurrence ends here. */
  lemma {:induction false} BitapTurn(lookup: Bits, mask: seq<Bits>, h: seq<Byte>, i: int, p: seq<Byte>, i': int, lookup': Bits)
    requires |p| < 32 == |lookup| && 0 <= i < |h| && i' == i + 1 && Looks(lookup, h, i, p) && Masks(mask, p, |p|)
    requires lookup' == ShiftLeft(Or(lookup, mask[h[i]]), 1)
    ensures |lookup'| == WIDTH && Looks(lookup', h, i', p)
    ensures And(lookup', Bit(WIDTH, |p|)) == Zeros(WIDTH) <==> Occurs(h, p, i' - |p|)
  {
    LooksOn(lookup, mask, h, i, p, i', lookup');
    BitTest(lookup', |p|);
    assert Suffix(h, i', p, |p|) <==> Occurs(h, p, i' - |p|);
  }

  ghost predicate NoneUpto(h: seq<Byte>, p: seq<Byte>, n: int) {
    forall s | 0 <= s <= n :: !Occurs(h, p, s)
  }

  lemma {:induction false} NoneOn(h: seq<Byte>, p: seq<Byte>, n: int, n': int)
    requires NoneUpto(h, p, n) && n' == n + 1 && !Occurs(h, p, n')
    ensures NoneUpto(h, p, n')
  {
  }

  lemma {:induction false} FoundFirst(h: seq<Byte>, p: seq<Byte>, n: int, s: int)
    requires NoneUpto(h, p, n) && s == n + 1 && Occurs(h, p, s)
    ensures FirstOccurrence(h, p, Some(s))
  {
  }

  lemma {:induction false} FoundNone(h: seq<Byte>, p: seq<Byte>, n: int)
    requires NoneUpto(h, p, n) && n == |h| - |p|
    ensures FirstOccurrence(h, p, None)
  {
  }

  /** One byte of the haystack looked up: whether an occurrence ends with it. */
  method LookUp(lookup: Bits, mask: seq<Bits>, haystack: seq<Byte>, i: nat, ghost i': nat, needle: seq<Byte>)
    returns (lookup': Bits, hit: bool)
    requires |needle| < 32 == |lookup| && i < |haystack| && i' == i + 1
    requires Looks(lookup, haystack, i, needle) && Masks(mask, needle, |needle|)
    ensures |lookup'| == WIDTH && Looks(lookup', haystack, i', needle)
    ensures hit <==> Occurs(haystack, needle, i' - |needle|)
  {
    lookup' := Or(lookup, mask[haystack[i]]);
    lookup' := ShiftLeft(lookup', 1);
    BitapTurn(lookup, mask, haystack, i, needle, i', lookup');
    hit := And(lookup', Bit(WIDTH, |needle|)) == Zeros(WIDTH);
  }

  lemma {:induction false} LooksFirst(lookup: Bits, h: seq<Byte>, p: seq<Byte>)
    requires |p| < 32 && lookup == Not(Bit(WIDTH, 0))
    ensures |lookup| == WIDTH && Looks(lookup, h, 0, p)
  {
  }

  /** `bitap_bitwise`, for needles of 1 to 31 bytes. */
  method BitapBitwise(haystack: seq<Byte>, needle: seq<Byte>) returns (r: Option<nat>)
    requires 0 < |needle| < 32
    ensures FirstOccurrence(haystack, needle, r)
  {
    var lookup := Not(Bit(WIDTH, 0));
    LooksFirst(lookup, haystack, needle);
    var mask := PrepareMasks(needle);
    var i: nat, hit := 0, false;
    ghost var n := -|needle|;
    while i < |haystack|
      invariant i <= |haystack| && |lookup| == WIDTH && Looks(lookup, haystack, i, needle)
      invariant n == i - |needle| && NoneUpto(haystack, needle, n)
    {
      var i' := i + 1;
      ghost var n' := n + 1;
      lookup, hit := LookUp(lookup, mask, haystack, i, i', needle);
      if hit {
        FoundFirst(haystack, needle, n, n');
        return Some(i' - |needle|);
      }
      NoneOn(haystack, needle, n, n');
      i, n := i', n';
    }
    FoundNone(haystack, needle, n);
    r := None;
  }

  /** `memmem_optional`: the first occurrence, whichever way it is found. */
  method MemmemOptional(haystack: seq<Byte>, needle: seq<Byte>) returns (r: Option<nat>)
    ensures FirstOccurrence(haystack, needle, r)
  {
    if |needle| == 0 {
      return Some(0);
    }
    if |haystack| < |needle| {
      return None;
    }
    if |haystack| == |needle| {
      SameLength(haystack, needle);
      if haystack == needle {
        return Some(0);
      }
      return None;
    }
    if |needle| < 32 {
      r := BitapBitwise(haystack, needle);
      return;
    }
    // long needles: the whole haystack as one chunk
    var spans := [haystack];
    assert spans[1..] == [] && Flatten(spans) == haystack + Flatten(spans[1..]) == haystack;
    r := SearchChunks(spans, needle);
  }

  lemma {:induction false} SameLength(h: seq<Byte>, p: seq<Byte>)
    requires |h| == |p|
    ensures forall s :: Occurs(h, p, s) <==> s == 0 && h == p
  {
    if Occurs(h, p, 0) {
      forall x | 0 <= x < |h| ensures h[x] == p[x] {
        assert SameAt(h, 0, p, 0, x);
      }
    }
  }
}
