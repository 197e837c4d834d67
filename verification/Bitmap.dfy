/** The search of AK/BitmapView.h for a first run of clear bits, a word at a time. The bitmap is a sequence of bits; a
    word is 64 consecutive ones. */
module Bitmap {
  import opened Basics
  import opened BitSeq

  const BIT_SIZE: nat := 64

  /** A run of `length` clear bits starts at s. */
  ghost predicate Fits(bits: Bits, length: nat, s: int) {
    0 <= s && s + length <= |bits| && forall i | s <= i < s + length :: !bits[i]
  }

  /** The answer a bit-by-bit search gives. */
  ghost predicate FirstFit(bits: Bits, length: nat, r: Option<nat>) {
    match r
    case Some(s) => Fits(bits, length, s) && forall s' | 0 <= s' < s :: !Fits(bits, length, s')
    case None => forall s :: !Fits(bits, length, s)
  }

  /** The bits up to `pos` end in a run of `free` clear ones, and no fit starts before that run. */
  ghost predicate Scanned(bits: Bits, length: nat, pos: int, free: nat) {
    && free <= pos <= |bits|
    && (forall i | pos - free <= i < pos :: !bits[i])
    && (forall s | 0 <= s < pos - free :: !Fits(bits, length, s))
  }

  ghost predicate AllBits(bits: Bits, from: int, to: int, value: bool) {
    0 <= from <= to <= |bits| && forall i | from <= i < to :: bits[i] == value
  }

  lemma {:induction false} RunGrows(bits: Bits, length: nat, pos: int, free: nat, pos': int, free': nat)
    requires Scanned(bits, length, pos, free) && AllBits(bits, pos, pos', false) && free' == free + (pos' - pos)
    ensures Scanned(bits, length, pos', free')
  {
  }

  lemma {:induction false} RunEnds(bits: Bits, length: nat, pos: int, free: nat, pos': int)
    requires Scanned(bits, length, pos, free) && AllBits(bits, pos, pos', true) && free < length && pos < pos'
    ensures Scanned(bits, length, pos', 0)
  {
    forall s | 0 <= s < pos' ensures !Fits(bits, length, s) {
      if s >= pos - free {
        var i := if s < pos then pos else s;
        assert bits[i];
      }
    }
  }

  lemma {:induction false} RunFits(bits: Bits, length: nat, pos: int, free: nat, start: int)
    requires Scanned(bits, length, pos, free) && free >= length && start == pos - free
    ensures FirstFit(bits, length, Some(start))
  {
  }

  lemma {:induction false} NothingFits(bits: Bits, length: nat, pos: int, free: nat)
    requires Scanned(bits, length, pos, free) && free < length && pos == |bits|
    ensures FirstFit(bits, length, None)
  {
    forall s ensures !Fits(bits, length, s) {
    }
  }

  function CountTrailingZeroes(w: Bits): (n: nat)
    requires exists i :: 0 <= i < |w| && w[i]
    ensures n < |w| && w[n] && forall i | 0 <= i < n :: !w[i]
  {
    if w[0] then 0 else 1 + CountTrailingZeroes(w[1..])
  }

  /** The word that `viewed` bits have been shifted out of. */
  ghost predicate Rest(bucket: Bits, bits: Bits, base: nat, viewed: nat) {
    && |bucket| == BIT_SIZE && base + BIT_SIZE <= |bits| && viewed <= BIT_SIZE
    && forall i | 0 <= i < BIT_SIZE :: bucket[i] == (i + viewed < BIT_SIZE && bits[base + viewed + i])
  }

  lemma {:induction false} RestOn(bucket: Bits, bits: Bits, base: nat, viewed: nat, n: nat, viewed': nat)
    requires Rest(bucket, bits, base, viewed) && viewed' == viewed + n <= BIT_SIZE
    ensures Rest(ShiftRight(bucket, n), bits, base, viewed')
  {
  }

  lemma {:induction false} RestZero(bucket: Bits, bits: Bits, base: nat, viewed: nat, pos: nat, pos': nat)
    requires Rest(bucket, bits, base, viewed) && bucket == Zeros(BIT_SIZE) && pos == base + viewed && pos' == base + BIT_SIZE
    ensures AllBits(bits, pos, pos', false)
  {
    forall i | pos <= i < pos' ensures !bits[i] {
      assert bucket[i - pos] == bits[base + viewed + (i - pos)];
    }
  }

  lemma {:induction false} NotZero(w: Bits)
    requires w != Zeros(|w|)
    ensures exists i :: 0 <= i < |w| && w[i]
  {
    if forall i | 0 <= i < |w| :: !w[i] {
      AllTheSame(w, false);
    }
  }

  lemma {:induction false} AllTheSame(w: Bits, value: bool)
    requires forall i | 0 <= i < |w| :: w[i] == value
    ensures w == if value then Ones(|w|) else Zeros(|w|)
  {
  }

  lemma {:induction false} RestZeroes(bucket: Bits, bits: Bits, base: nat, viewed: nat, n: nat, pos: nat, pos': nat)
    requires Rest(bucket, bits, base, viewed) && pos == base + viewed && pos' == pos + n
    requires n < BIT_SIZE && bucket[n] && forall i | 0 <= i < n :: !bucket[i]
    ensures viewed + n < BIT_SIZE && AllBits(bits, pos, pos', false)
  {
    forall i | pos <= i < pos' ensures !bits[i] {
      assert bucket[i - pos] == bits[base + viewed + (i - pos)];
    }
  }

  lemma {:induction false} RestOnes(bucket: Bits, bits: Bits, base: nat, viewed: nat, n: nat, pos: nat, pos': nat)
    requires Rest(bucket, bits, base, viewed) && pos == base + viewed && pos' == pos + n
    requires n < BIT_SIZE && forall i | 0 <= i < n :: bucket[i]
    ensures viewed + n <= BIT_SIZE && AllBits(bits, pos, pos', true)
  {
    if n > 0 {
      assert bucket[n - 1];
    }
    forall i | pos <= i < pos' ensures bits[i] {
      assert bucket[i - pos] == bits[base + viewed + (i - pos)];
    }
  }

  /** A run of free bits, and where it starts. */
  datatype Run = Run(free: nat, start: nat)

  ghost predicate Tracks(run: Run, bits: Bits, length: nat, pos: int) {
    Scanned(bits, length, pos, run.free) && (run.free > 0 || pos == 0 ==> run.start == pos - run.free) && (length == 0 ==> pos == 0)
  }

  /** More clear bits at `pos`, for a position that is not the very end of a search for nothing. */
  method Extend(run: Run, n: nat, bits: Bits, length: nat, pos: nat, ghost pos': nat) returns (run': Run)
    requires Tracks(run, bits, length, pos) && AllBits(bits, pos, pos', false) && pos' == pos + n
    ensures run'.free == run.free + n && Scanned(bits, length, pos', run'.free)
    ensures run'.start == pos' - run'.free
  {
    RunGrows(bits, length, pos, run.free, pos', run.free + n);
    run' := Run(run.free + n, if run.free == 0 then pos else run.start);
  }

  /** One turn of the inner loop over a word with set bits left: clear bits, then set ones. */
  method ScanBits(bits: Bits, base: nat, length: nat, run0: Run, bucket0: Bits, viewed0: nat)
    returns (found: bool, run: Run, bucket: Bits, viewed: nat)
    requires viewed0 < BIT_SIZE && Rest(bucket0, bits, base, viewed0) && Tracks(run0, bits, length, base + viewed0)
    requires bucket0 != Zeros(BIT_SIZE) && bucket0 != Ones(BIT_SIZE)
    ensures if found then FirstFit(bits, length, Some(run.start))
            else && viewed0 < viewed <= BIT_SIZE && Rest(bucket, bits, base, viewed) && Tracks(run, bits, length, base + viewed)
                 && bucket != Ones(BIT_SIZE) && length > 0
  {
    NotZero(bucket0);
    var zeroes := CountTrailingZeroes(bucket0);
    ghost var pos0, pos1 := base + viewed0, base + viewed0 + zeroes;
    RestZeroes(bucket0, bits, base, viewed0, zeroes, pos0, pos1);
    viewed := viewed0 + zeroes;
    RestOn(bucket0, bits, base, viewed0, zeroes, viewed);
    bucket := ShiftRight(bucket0, zeroes);
    run := Extend(run0, zeroes, bits, length, base + viewed0, pos1);
    if run.free >= length {
      RunFits(bits, length, pos1, run.free, run.start);
      return true, run, bucket, viewed;
    }
    NotOnes(bucket0, zeroes, bucket);
    RunStays(run, bits, length, pos1);
    bucket, viewed := DeleteOnes(bits, base, length, run, bucket, viewed);
    run := run.(free := 0);
    found := false;
  }

  lemma {:induction false} RunStays(run: Run, bits: Bits, length: nat, pos: int)
    requires Scanned(bits, length, pos, run.free) && run.start == pos - run.free && run.free < length
    ensures Tracks(run, bits, length, pos)
  {
  }

  /** The set bits that end a run. */
  method DeleteOnes(bits: Bits, base: nat, length: nat, run: Run, bucket0: Bits, viewed0: nat) returns (bucket: Bits, viewed: nat)
    requires viewed0 < BIT_SIZE && Rest(bucket0, bits, base, viewed0) && Tracks(run, bits, length, base + viewed0) && run.free < length
    requires bucket0[0] && exists i :: 0 <= i < BIT_SIZE && Not(bucket0)[i]
    ensures viewed0 < viewed <= BIT_SIZE && Rest(bucket, bits, base, viewed) && bucket != Ones(BIT_SIZE)
    ensures Tracks(run.(free := 0), bits, length, base + viewed)
  {
    var ones := CountTrailingZeroes(Not(bucket0));
    assert forall i | 0 <= i < ones :: !Not(bucket0)[i] && bucket0[i];
    assert ones > 0;
    ghost var pos, pos' := base + viewed0, base + viewed0 + ones;
    RestOnes(bucket0, bits, base, viewed0, ones, pos, pos');
    RunEnds(bits, length, pos, run.free, pos');
    viewed := viewed0 + ones;
    RestOn(bucket0, bits, base, viewed0, ones, viewed);
    bucket := ShiftRight(bucket0, ones);
    assert !bucket[BIT_SIZE - 1] && Ones(BIT_SIZE)[BIT_SIZE - 1];
  }

  /** A word that is not full, or has been shifted, has a clear bit. */
  lemma {:induction false} NotOnes(w: Bits, n: nat, w': Bits)
    requires |w| == BIT_SIZE && w != Ones(BIT_SIZE) && w' == ShiftRight(w, n)
    ensures exists i :: 0 <= i < BIT_SIZE && Not(w')[i]
  {
    if n > 0 {
      assert Not(w')[BIT_SIZE - 1];
    } else if forall i | 0 <= i < BIT_SIZE :: w[i] {
      AllTheSame(w, true);
    } else {
      var i :| 0 <= i < BIT_SIZE && !w[i];
      assert Not(w')[i];
    }
  }

  /** The inner loop over a word that is neither full nor empty. */
  method ScanWord(bits: Bits, base: nat, length: nat, run0: Run) returns (found: bool, run: Run)
    requires base + BIT_SIZE <= |bits| && Tracks(run0, bits, length, base)
    requires bits[base..base + BIT_SIZE] != Zeros(BIT_SIZE) && bits[base..base + BIT_SIZE] != Ones(BIT_SIZE)
    ensures if found then FirstFit(bits, length, Some(run.start)) else Tracks(run, bits, length, base + BIT_SIZE)
  {
    var bucket := bits[base..base + BIT_SIZE];
    var viewed: nat := 0;
    run, found := run0, false;
    ghost var pos: nat := base;
    while viewed < BIT_SIZE
      invariant viewed <= BIT_SIZE && pos == base + viewed && Rest(bucket, bits, base, viewed) && Tracks(run, bits, length, pos)
      invariant bucket != Ones(BIT_SIZE)
      invariant length == 0 ==> bucket != Zeros(BIT_SIZE)
      decreases BIT_SIZE - viewed
    {
      if bucket == Zeros(BIT_SIZE) {
        ghost var pos' := base + BIT_SIZE;
        RestZero(bucket, bits, base, viewed, pos, pos');
        run := Extend(run, BIT_SIZE - viewed, bits, length, base + viewed, pos');
        viewed, pos := BIT_SIZE, pos';
        assert !bucket[0] && Ones(BIT_SIZE)[0];
      } else {
        found, run, bucket, viewed := ScanBits(bits, base, length, run, bucket, viewed);
        pos := base + viewed;
        if found {
          return;
        }
      }
    }
  }

  /** `find_first_fit`: `find_next_range_of_unset_bits` from the start, with one length as minimum and maximum. */
  method FindFirstFit(bits: Bits, length: nat) returns (r: Option<nat>)
    ensures FirstFit(bits, length, r)
  {
    var run := Run(0, 0);
    var bucket: nat := 0;
    ghost var pos: nat := 0;
    while bucket < |bits| / BIT_SIZE
      invariant bucket <= |bits| / BIT_SIZE && pos == bucket * BIT_SIZE && Tracks(run, bits, length, pos)
    {
      var found;
      found, run := ScanBucket(bits, bucket * BIT_SIZE, length, run);
      if found {
        return Some(run.start);
      }
      bucket := bucket + 1;
      pos := pos + BIT_SIZE;
    }
    if run.free < length {
      r := ScanTail(bits, bucket * BIT_SIZE, length, run);
      return;
    }
    RunFits(bits, length, pos, run.free, run.start);
    r := Some(run.start);
  }

  /** One turn of the loop over the words. */
  method ScanBucket(bits: Bits, base: nat, length: nat, run0: Run) returns (found: bool, run: Run)
    requires base + BIT_SIZE <= |bits| && Tracks(run0, bits, length, base)
    ensures if found then FirstFit(bits, length, Some(run.start)) else Tracks(run, bits, length, base + BIT_SIZE)
  {
    var word := bits[base..base + BIT_SIZE];
    ghost var end := base + BIT_SIZE;
    run := run0;
    if word == Ones(BIT_SIZE) {
      // every bit set
      if run.free >= length {
        RunFits(bits, length, base, run.free, run.start);
        return true, run;
      }
      assert forall i | base <= i < end :: bits[i] == word[i - base];
      RunEnds(bits, length, base, run.free, end);
      return false, run.(free := 0);
    }
    if word == Zeros(BIT_SIZE) {
      // every bit clear
      assert forall i | base <= i < end :: bits[i] == word[i - base];
      run := Extend(run, BIT_SIZE, bits, length, base, end);
      if run.free >= length {
        RunFits(bits, length, end, run.free, run.start);
        return true, run;
      }
      return false, run;
    }
    found, run := ScanWord(bits, base, length, run);
  }

  /** The bits after the last whole word, one at a time. */
  method ScanTail(bits: Bits, base: nat, length: nat, run0: Run) returns (r: Option<nat>)
    requires base <= |bits| && Tracks(run0, bits, length, base) && run0.free < length
    ensures FirstFit(bits, length, r)
  {
    var run, i: nat := run0, base;
    while i < |bits|
      invariant base <= i <= |bits| && Tracks(run, bits, length, i) && run.free < length
    {
      ghost var i' := i + 1;
      if !bits[i] {
        run := Extend(run, 1, bits, length, i, i');
        if run.free >= length {
          RunFits(bits, length, i', run.free, run.start);
          return Some(run.start);
        }
      } else {
        RunEnds(bits, length, i, run.free, i');
        run := run.(free := 0);
      }
      i := i + 1;
    }
    NothingFits(bits, length, i, run.free);
    r := None;
  }
}
