/** The histogram of samples, packed 11 bits to a bin, and the iterator over its counts (statistics.c). */
module Histogram {
  import opened Arith
  import opened Bytes
  import opened Bignum
  import opened Packing

  const HISTOGRAM_NUM_BINS: nat := 1024
  const MAX_HISTOGRAM_VALUE: nat := 2047
  const BUFFER_WORDS: nat := 353
  const SAMPLE_COUNT: nat := 4096

  /** The bins that the words stand for. */
  function Bins(words: seq<nat>): (b: seq<nat>)
    ensures |b| == HISTOGRAM_NUM_BINS
    ensures forall i :: 0 <= i < HISTOGRAM_NUM_BINS ==> b[i] == FieldAt(Num(words), BITS * i)
  {
    seq(HISTOGRAM_NUM_BINS, i requires 0 <= i < HISTOGRAM_NUM_BINS => FieldAt(Num(words), BITS * i))
  }

  /** y as the words from k on, above what the words before them make. */
  ghost function Above(base: nat, k: nat, y: int): int {
    base + Pow2(32 * k) * y
  }

  /** The number seen from word k on. */
  lemma FromWord(s: seq<nat>, k: nat, b: nat, value: nat)
    requires Words(s) && k < |s| && value < FIELD
    ensures var y := s[k] + WORD * Num(s[k + 1..]);
            && FieldAt(Num(s), 32 * k + b) == FieldAt(y, b)
            && WithField(Num(s), 32 * k + b, value) == Above(Num(s[..k]), k, WithField(y, b, value))
  {
    hide FieldAt, Pow2, WithField, Num;
    var y := s[k] + WORD * Num(s[k + 1..]);
    assert s[k := s[k]] == s;
    ReplacedWord(s, k, s[k]);
    NumBound(s[..k]);
    FieldShift(Num(s[..k]), 32 * k, y, b, value);
  }

  lemma NextWord(s: seq<nat>, k: nat)
    requires k + 1 < |s|
    ensures Num(s[k + 1..]) == s[k + 1] + WORD * Num(s[k + 2..])
  {
    assert s[k + 1..][1..] == s[k + 2..];
  }

  /** Replacing one word, or two neighbours, changes the number from there on. */
  lemma ReplacedWord(s: seq<nat>, k: nat, w: nat)
    requires k < |s|
    ensures var t := s[k := w]; Num(t) == Above(Num(s[..k]), k, w + WORD * Num(s[k + 1..]))
  {
    hide Pow2;
    var t := s[k := w];
    assert t == s[..k] + t[k..] && t[k..][0] == w && t[k..][1..] == s[k + 1..];
    NumConcat(s[..k], t[k..]);
  }

  lemma ReplacedWords(s: seq<nat>, k: nat, w: nat, w2: nat)
    requires k + 1 < |s|
    ensures var t := s[k := w][k + 1 := w2];
            Num(t) == Above(Num(s[..k]), k, w + WORD * (w2 + WORD * Num(s[k + 2..])))
  {
    hide Pow2, Num, Above;
    var r := s[k := w];
    var t := r[k + 1 := w2];
    ReplacedWord(t, k, w);
    assert t[k := w] == t && t[..k] == s[..k];
    NextWord(t, k);
    assert t[k + 2..] == s[k + 2..];
  }

  /** The word and bit where a bin begins. */
  lemma BinPosition(index: nat)
    requires index < HISTOGRAM_NUM_BINS
    ensures var bit := index * BITS;
            && bit == 32 * (bit / 32) + bit % 32 && bit / 32 < 352 && bit % 32 < 32 && BITS * index == bit
            && (bit % 32 + BITS > 32 ==> bit / 32 + 1 < BUFFER_WORDS)
  {
  }

  /** What getHistogram() computes from the words. */
  function Get(s: seq<nat>, k: nat, b: nat): nat
    requires k + 1 < |s| && b < 32
  {
    var r := BitAnd(ShiftRight(s[k], b), MAX_HISTOGRAM_VALUE);
    if b + BITS > 32 then BitAnd(BitOrNat(r, ShiftLeft(s[k + 1], 32 - b)), MAX_HISTOGRAM_VALUE) else r
  }

  lemma GetIsField(s: seq<nat>, k: nat, b: nat)
    requires Words(s) && k + 1 < |s| && b < 32
    ensures Get(s, k, b) == FieldAt(Num(s), 32 * k + b)
  {
    hide FieldAt, Pow2, WithField, BitAnd, BitOrNat, ShiftLeft, ShiftRight, Num, Above;
    FromWord(s, k, b, 0);
    if b + BITS > 32 {
      NextWord(s, k);
      GetAcross(s[k], s[k + 1], Num(s[k + 2..]), b);
    } else {
      GetWithin(s[k], Num(s[k + 1..]), b);
    }
  }

  /** What putHistogram() makes of the words. */
  function Put(s: seq<nat>, k: nat, b: nat, value: nat): (t: seq<nat>)
    requires k + 1 < |s| && b < 32
    ensures |t| == |s|
  {
    var r := s[k := PutWord(s[k], b, value)];
    if b + BITS > 32 then r[k + 1 := PutNextWord(s[k + 1], b, value)] else r
  }

  lemma OneWord(s: seq<nat>, k: nat, b: nat, value: nat)
    requires Words(s) && k < |s| && b + BITS <= 32 && value < FIELD
    ensures PutWord(s[k], b, value) < WORD
    ensures Num(s[k := PutWord(s[k], b, value)]) == WithField(Num(s), 32 * k + b, value)
  {
    hide FieldAt, Pow2, WithField, PutWord, Num, Above;
    var w, rest := PutWord(s[k], b, value), Num(s[k + 1..]);
    FromWord(s, k, b, value);
    PutWithin(s[k], rest, b, value);
    ReplacedWord(s, k, w);
  }

  lemma TwoNeighbours(s: seq<nat>, k: nat, b: nat, value: nat)
    requires Words(s) && k + 1 < |s| && 21 < b < 32 && value < FIELD
    ensures PutWord(s[k], b, value) < WORD && PutNextWord(s[k + 1], b, value) < WORD
    ensures Num(s[k := PutWord(s[k], b, value)][k + 1 := PutNextWord(s[k + 1], b, value)])
         == WithField(Num(s), 32 * k + b, value)
  {
    hide FieldAt, Pow2, WithField, PutWord, PutNextWord, Num, Above;
    var rest := Num(s[k + 2..]);
    FromWord(s, k, b, value);
    NextWord(s, k);
    PutAcross(s[k], s[k + 1], rest, b, value);
    ReplacedWords(s, k, PutWord(s[k], b, value), PutNextWord(s[k + 1], b, value));
  }

  lemma PutIsWithField(s: seq<nat>, k: nat, b: nat, value: nat)
    requires Words(s) && k + 1 < |s| && b < 32 && value < FIELD
    ensures Words(Put(s, k, b, value)) && Num(Put(s, k, b, value)) == WithField(Num(s), 32 * k + b, value)
  {
    hide FieldAt, Pow2, WithField, PutWord, PutNextWord, Num, Above;
    if b + BITS > 32 {
      TwoNeighbours(s, k, b, value);
    } else {
      OneWord(s, k, b, value);
    }
  }

  /** A put sets its own bin and no other, also where the bin lies across two words. */
  lemma PutIsUpdate(s: seq<nat>, index: nat, value: nat)
    requires Words(s) && |s| == BUFFER_WORDS && index < HISTOGRAM_NUM_BINS && value < FIELD
    ensures var bit := index * BITS;
            && bit / 32 + 1 < |s|
            && Words(Put(s, bit / 32, bit % 32, value))
            && Bins(Put(s, bit / 32, bit % 32, value)) == Bins(s)[index := value]
  {
    hide FieldAt, Num, Put, WithField;
    BinPosition(index);
    var bit := index * BITS;
    var t := Put(s, bit / 32, bit % 32, value);
    PutIsWithField(s, bit / 32, bit % 32, value);
    forall j | 0 <= j < HISTOGRAM_NUM_BINS
      ensures Bins(t)[j] == Bins(s)[index := value][j]
    {
      OtherFields(Num(s), index, value, j);
    }
  }

  // ----- counting -----

  function Sum(bins: seq<nat>): nat {
    if bins == [] then 0 else bins[0] + Sum(bins[1..])
  }

  lemma {:induction false} SumUpdate(bins: seq<nat>, i: nat, v: nat)
    requires i < |bins|
    ensures Sum(bins[i := v]) == Sum(bins) + v - bins[i]
  {
    if i == 0 {
      assert bins[i := v][1..] == bins[1..];
    } else {
      SumUpdate(bins[1..], i - 1, v);
      assert bins[i := v][1..] == bins[1..][i - 1 := v];
    }
  }

  lemma {:induction false} SumZero(bins: seq<nat>)
    requires forall i :: 0 <= i < |bins| ==> bins[i] == 0
    ensures Sum(bins) == 0
  {
    if bins != [] {
      SumZero(bins[1..]);
    }
  }

  lemma {:induction false} NumZero(words: seq<nat>)
    requires forall i :: 0 <= i < |words| ==> words[i] == 0
    ensures Num(words) == 0
  {
    if words != [] {
      NumZero(words[1..]);
    }
  }

  // ----- visiting every count -----

  function Repeat(x: nat, n: nat): (s: seq<nat>)
    ensures |s| == n
  {
    if n == 0 then [] else [x] + Repeat(x, n - 1)
  }

  /** The bins from i on, each as often as it counts. */
  function Visits(bins: seq<nat>, i: nat): seq<nat>
    decreases |bins| - i
  {
    if i >= |bins| then [] else Repeat(i, bins[i]) + Visits(bins, i + 1)
  }

  /** What an iterator that has taken `count` of bin i has still to visit. */
  function Remaining(bins: seq<nat>, i: nat, count: nat): seq<nat>
    requires i < |bins| && count <= bins[i]
  {
    Repeat(i, bins[i] - count) + Visits(bins, i + 1)
  }

  lemma {:induction false} VisitsSize(bins: seq<nat>, i: nat)
    requires i <= |bins|
    ensures |Visits(bins, i)| == Sum(bins[i..])
    decreases |bins| - i
  {
    if i < |bins| {
      VisitsSize(bins, i + 1);
      assert bins[i..][1..] == bins[i + 1..];
    }
  }

  /** How often x occurs. */
  function Count(s: seq<nat>, x: nat): nat {
    if s == [] then 0 else (if s[0] == x then 1 else 0) + Count(s[1..], x)
  }

  lemma {:induction false} RepeatCount(x: nat, n: nat, j: nat)
    ensures Count(Repeat(x, n), j) == if j == x then n else 0
  {
    if n > 0 {
      RepeatCount(x, n - 1, j);
      assert Repeat(x, n)[1..] == Repeat(x, n - 1);
    }
  }

  lemma {:induction false} CountConcat(a: seq<nat>, b: seq<nat>, j: nat)
    ensures Count(a + b, j) == Count(a, j) + Count(b, j)
  {
    if a == [] {
      assert a + b == b;
    } else {
      CountConcat(a[1..], b, j);
      assert (a + b)[1..] == a[1..] + b;
    }
  }

  /** A whole pass visits every bin exactly as often as it counts. */
  lemma {:induction false} VisitsCount(bins: seq<nat>, i: nat, j: nat)
    requires i <= |bins| && j < |bins|
    ensures Count(Visits(bins, i), j) == if i <= j then bins[j] else 0
    decreases |bins| - i
  {
    if i < |bins| {
      hide Repeat, Count;
      VisitsCount(bins, i + 1, j);
      RepeatCount(i, bins[i], j);
      CountConcat(Repeat(i, bins[i]), Visits(bins, i + 1), j);
    }
  }

  // ----- moments -----

  /** The fixed-point operations, as they round. */
  datatype Fixed = Fixed(add: (int, int) -> int, sub: (int, int) -> int, mul: (int, int) -> int, half: int,
      scale: nat -> int)

  function Raised(x: int, power: nat, ops: Fixed): int
    requires power >= 1
  {
    if power == 1 then x else ops.mul(Raised(x, power - 1, ops), x)
  }

  /** The term of a central moment that a sample contributes. */
  function Term(bin: nat, mean: int, power: nat, ops: Fixed): int
    requires power >= 1
  {
    Raised(ops.sub(ops.scale(bin), mean), power, ops)
  }

  /** How many terms the recursion takes: two at the bottom, twice as many one level up. */
  function TermCount(level: nat): nat {
    if level <= 2 then 2 else 2 * TermCount(level / 2)
  }

  /** Averaging pairs, then pairs of averages, and so on. */
  function Averaged(bins: seq<nat>, mean: int, power: nat, level: nat, ops: Fixed): int
    requires power >= 1 && |bins| == TermCount(level)
  {
    var half := |bins| / 2;
    var (a, b) :=
      if level <= 2 then (Term(bins[0], mean, power, ops), Term(bins[1], mean, power, ops))
      else (Averaged(bins[..half], mean, power, level / 2, ops), Averaged(bins[half..], mean, power, level / 2, ops));
    ops.mul(ops.add(a, b), ops.half)
  }

  lemma AllSamples()
    ensures TermCount(SAMPLE_COUNT) == SAMPLE_COUNT
  {
    assert TermCount(16) == 16;
    assert TermCount(256) == 16 * TermCount(16);
    assert TermCount(4096) == 16 * TermCount(256);
  }

  class Statistics {
    const packedHistogramBuffer: array<nat>
    const ops: Fixed
    var samplesInHistogram: nat
    var histogramOverflowOccurred: bool
    var fix16ErrorOccurred: bool
    var iteratorIndex: nat
    var iteratorCount: nat
    var cachedHistogramCount: nat
    var cachedScaledSample: int

    constructor (ops0: Fixed)
      ensures Valid() && Balanced() && ops == ops0 && fresh(packedHistogramBuffer)
      ensures samplesInHistogram == 0 && !histogramOverflowOccurred && !fix16ErrorOccurred
    {
      packedHistogramBuffer := new nat[BUFFER_WORDS](_ => 0);
      ops := ops0;
      samplesInHistogram, histogramOverflowOccurred, fix16ErrorOccurred := 0, false, false;
      iteratorIndex, iteratorCount, cachedHistogramCount, cachedScaledSample := 0, 0, 0, 0;
      new;
      Cleared(packedHistogramBuffer[..]);
    }

    ghost predicate Valid()
      reads packedHistogramBuffer
    {
      packedHistogramBuffer.Length == BUFFER_WORDS && Words(packedHistogramBuffer[..])
    }

    ghost function Counts(): (b: seq<nat>)
      reads packedHistogramBuffer
      ensures |b| == HISTOGRAM_NUM_BINS
    {
      Bins(packedHistogramBuffer[..])
    }

    /** While nothing went wrong the counts add up to the number of samples. */
    ghost predicate Balanced()
      reads this, packedHistogramBuffer
    {
      !histogramOverflowOccurred && !fix16ErrorOccurred ==> Sum(Counts()) == samplesInHistogram
    }

    method GetHistogram(index: nat) returns (r: nat)
      requires Valid()
      modifies `fix16ErrorOccurred
      ensures index < HISTOGRAM_NUM_BINS ==> r == Counts()[index] && fix16ErrorOccurred == old(fix16ErrorOccurred)
      ensures index >= HISTOGRAM_NUM_BINS ==> r == 0 && fix16ErrorOccurred
    {
      hide Num, FieldAt, Get;
      if index >= HISTOGRAM_NUM_BINS {
        fix16ErrorOccurred := true;
        return 0;
      }
      var bitIndex := index * BITS;
      BinPosition(index);
      var wordIndex := bitIndex / 32;
      bitIndex := bitIndex % 32;
      r := BitAnd(ShiftRight(packedHistogramBuffer[wordIndex], bitIndex), MAX_HISTOGRAM_VALUE);
      if bitIndex + BITS > 32 {
        var shiftAmount := 32 - bitIndex;
        r := BitOrNat(r, ShiftLeft(packedHistogramBuffer[wordIndex + 1], shiftAmount));
        r := BitAnd(r, MAX_HISTOGRAM_VALUE);
      }
      GetIs(packedHistogramBuffer[..], wordIndex, bitIndex);
      GetIsField(packedHistogramBuffer[..], wordIndex, bitIndex);
    }

    method PutHistogram(index: nat, value: nat)
      requires Valid()
      modifies `fix16ErrorOccurred, `histogramOverflowOccurred, packedHistogramBuffer
      ensures Valid()
      ensures fix16ErrorOccurred == (old(fix16ErrorOccurred) || index >= HISTOGRAM_NUM_BINS)
      ensures histogramOverflowOccurred
           == (old(histogramOverflowOccurred) || (index < HISTOGRAM_NUM_BINS && value > MAX_HISTOGRAM_VALUE))
      ensures Counts() == if index < HISTOGRAM_NUM_BINS && value <= MAX_HISTOGRAM_VALUE
                          then old(Counts())[index := value]
                          else old(Counts())
    {
      hide Bins, Num, FieldAt, BitAnd, BitOrNat, ShiftLeft, ShiftRight;
      if index >= HISTOGRAM_NUM_BINS {
        fix16ErrorOccurred := true;
        return;
      }
      if value > MAX_HISTOGRAM_VALUE {
        histogramOverflowOccurred := true;
        return;
      }
      ghost var s := packedHistogramBuffer[..];
      var bitIndex := index * BITS;
      BinPosition(index);
      PutIsUpdate(s, index, value);
      var wordIndex := bitIndex / 32;
      bitIndex := bitIndex % 32;
      StoreBits(wordIndex, bitIndex, value);
    }

    /** The two read-modify-writes of a put. */
    method StoreBits(wordIndex: nat, bitIndex: nat, value: nat)
      requires packedHistogramBuffer.Length == BUFFER_WORDS && wordIndex + 1 < BUFFER_WORDS && bitIndex < 32
      modifies packedHistogramBuffer
      ensures packedHistogramBuffer[..] == Put(old(packedHistogramBuffer[..]), wordIndex, bitIndex, value)
    {
      hide BitAnd, BitOrNat, ShiftLeft, ShiftRight;
      var word := wordIndex;
      ShiftFits(MAX_HISTOGRAM_VALUE, bitIndex);
      var mask := ShiftLeft(MAX_HISTOGRAM_VALUE, bitIndex);
      packedHistogramBuffer[word] := BitAnd(packedHistogramBuffer[word], Complement(mask));
      packedHistogramBuffer[word] := BitOrNat(packedHistogramBuffer[word], ShiftLeft(value, bitIndex));
      if bitIndex + BITS > 32 {
        var shiftAmount := 32 - bitIndex;
        word := word + 1;
        MaskFits(BITS - shiftAmount);
        mask := Pow2(BITS - shiftAmount) - 1;
        packedHistogramBuffer[word] := BitAnd(packedHistogramBuffer[word], Complement(mask));
        packedHistogramBuffer[word] := BitOrNat(packedHistogramBuffer[word], ShiftRight(value, shiftAmount));
      }
    }

    /** One more sample in a bin. */
    method IncrementHistogram(index: nat)
      requires Valid() && Balanced()
      modifies this, packedHistogramBuffer
      ensures Valid() && Balanced() && samplesInHistogram == old(samplesInHistogram) + 1
      ensures index < HISTOGRAM_NUM_BINS && old(Counts())[index] < MAX_HISTOGRAM_VALUE ==>
                Counts() == old(Counts())[index := old(Counts())[index] + 1]
                && histogramOverflowOccurred == old(histogramOverflowOccurred)
      ensures index < HISTOGRAM_NUM_BINS && old(Counts())[index] >= MAX_HISTOGRAM_VALUE ==> histogramOverflowOccurred
      ensures index >= HISTOGRAM_NUM_BINS ==> fix16ErrorOccurred
    {
      hide Bins;
      ghost var before := Counts();
      var r := GetHistogram(index);
      PutHistogram(index, r + 1);
      samplesInHistogram := samplesInHistogram + 1;
      if index < HISTOGRAM_NUM_BINS {
        SumUpdate(before, index, r + 1);
      }
    }

    /** The iterator stands in a bin, with its count and scaled value cached. */
    ghost predicate At(bins: seq<nat>)
      reads `iteratorIndex, `iteratorCount, `cachedHistogramCount, `cachedScaledSample
    {
      && |bins| == HISTOGRAM_NUM_BINS && iteratorIndex < HISTOGRAM_NUM_BINS
      && cachedHistogramCount == bins[iteratorIndex] && cachedScaledSample == ops.scale(iteratorIndex)
      && iteratorCount <= cachedHistogramCount
    }

    ghost function Left(bins: seq<nat>): seq<nat>
      requires At(bins)
      reads `iteratorIndex, `iteratorCount, `cachedHistogramCount, `cachedScaledSample
    {
      Remaining(bins, iteratorIndex, iteratorCount)
    }

    /** The iterator stands in a bin, or has run past the last one and recorded that. */
    ghost predicate Iterating(bins: seq<nat>)
      reads `iteratorIndex, `iteratorCount, `cachedHistogramCount, `cachedScaledSample, `fix16ErrorOccurred
    {
      At(bins) || (iteratorIndex >= HISTOGRAM_NUM_BINS && fix16ErrorOccurred)
    }

    /** The bins of the terms to come; none past the last one. */
    ghost function Coming(bins: seq<nat>): seq<nat>
      reads `iteratorIndex, `iteratorCount, `cachedHistogramCount, `cachedScaledSample
    {
      if At(bins) then Left(bins) else []
    }

    method UpdateIteratorCache()
      requires Valid() && iteratorIndex < HISTOGRAM_NUM_BINS
      modifies `cachedHistogramCount, `cachedScaledSample, `fix16ErrorOccurred
      ensures cachedHistogramCount == Counts()[iteratorIndex] && cachedScaledSample == ops.scale(iteratorIndex)
      ensures fix16ErrorOccurred == old(fix16ErrorOccurred)
    {
      hide Bins;
      cachedHistogramCount := GetHistogram(iteratorIndex);
      cachedScaledSample := ops.scale(iteratorIndex);
    }

    method ResetIterator()
      requires Valid()
      modifies `iteratorIndex, `iteratorCount, `cachedHistogramCount, `cachedScaledSample, `fix16ErrorOccurred
      ensures Iterating(Counts()) && Coming(Counts()) == Visits(Counts(), 0)
      ensures fix16ErrorOccurred == old(fix16ErrorOccurred)
    {
      hide Bins;
      iteratorIndex, iteratorCount := 0, 0;
      UpdateIteratorCache();
    }

    /**
     Finds the next count and turns it into a term. Past the last one it records an error; what it then returns, perhaps
     a term of the last bin once more, means nothing.
     */
    method GetTermFromIterator(mean: int, power: nat) returns (r: int)
      requires Valid() && Iterating(Counts()) && power >= 1
      modifies `iteratorIndex, `iteratorCount, `cachedHistogramCount, `cachedScaledSample, `fix16ErrorOccurred
      ensures Iterating(Counts())
      ensures var left := old(Coming(Counts()));
              if left == [] then Coming(Counts()) == [] && fix16ErrorOccurred
              else
                && Coming(Counts()) == left[1..] && r == Term(left[0], mean, power, ops)
                && fix16ErrorOccurred == old(fix16ErrorOccurred)
    {
      hide Bins, Remaining, Raised;
      ghost var bins := Counts();
      while iteratorCount >= cachedHistogramCount
        invariant Iterating(bins) && Coming(bins) == old(Coming(Counts()))
        invariant fix16ErrorOccurred == old(fix16ErrorOccurred)
        decreases HISTOGRAM_NUM_BINS - iteratorIndex
      {
        if iteratorIndex < HISTOGRAM_NUM_BINS {
          BinDone(bins, iteratorIndex, iteratorCount);
        }
        iteratorCount := 0;
        iteratorIndex := iteratorIndex + 1;
        if iteratorIndex >= HISTOGRAM_NUM_BINS {
          fix16ErrorOccurred := true;
          return 0;
        }
        UpdateIteratorCache();
      }
      if iteratorIndex < HISTOGRAM_NUM_BINS {
        OneVisit(bins, iteratorIndex, iteratorCount);
      }
      iteratorCount := iteratorCount + 1;
      r := RaisedTo(ops.sub(cachedScaledSample, mean), power);
    }

    method RaisedTo(x: int, power: nat) returns (r: int)
      requires power >= 1
      ensures r == Raised(x, power, ops)
    {
      r := x;
      for i := 1 to power
        invariant r == Raised(x, i, ops)
      {
        r := ops.mul(r, x);
      }
    }

    method TwoTerms(mean: int, power: nat) returns (term1: int, term2: int)
      requires Valid() && Iterating(Counts()) && power >= 1
      modifies `iteratorIndex, `iteratorCount, `cachedHistogramCount, `cachedScaledSample, `fix16ErrorOccurred
      ensures Iterating(Counts())
      ensures var left := old(Coming(Counts()));
              if |left| < 2 then Coming(Counts()) == [] && fix16ErrorOccurred
              else
                && Coming(Counts()) == left[2..] && fix16ErrorOccurred == old(fix16ErrorOccurred)
                && term1 == Term(left[0], mean, power, ops) && term2 == Term(left[1], mean, power, ops)
    {
      hide Bins, Remaining, Term, Iterating, Coming;
      ghost var left := Coming(Counts());
      term1 := GetTermFromIterator(mean, power);
      term2 := GetTermFromIterator(mean, power);
      if |left| >= 2 {
        assert left[1..][1..] == left[2..] && left[1..][0] == left[1];
      }
    }

    /**
     Averages the next terms pairwise: exactly as many as the level says, in order. An error is recorded iff there are
     fewer.
     */
    method CalculateCentralMomentRecursive(mean: int, power: nat, level: nat) returns (r: int)
      requires Valid() && Iterating(Counts()) && power >= 1
      modifies `iteratorIndex, `iteratorCount, `cachedHistogramCount, `cachedScaledSample, `fix16ErrorOccurred
      ensures Iterating(Counts())
      ensures var left, n := old(Coming(Counts())), TermCount(level);
              if |left| < n then Coming(Counts()) == [] && fix16ErrorOccurred
              else
                && Coming(Counts()) == left[n..] && fix16ErrorOccurred == old(fix16ErrorOccurred)
                && r == Averaged(left[..n], mean, power, level, ops)
      decreases level
    {
      hide Bins, Remaining, Term, Averaged, TermCount, Iterating, Coming;
      ghost var left := Coming(Counts());
      SomeTerms(level);
      if |left| >= TermCount(level) {
        AveragedIs(left, mean, power, level, ops);
      }
      var term1, term2;
      if level <= 2 {
        term1, term2 := TwoTerms(mean, power);
      } else {
        ghost var half := TermCount(level / 2);
        term1 := CalculateCentralMomentRecursive(mean, power, level / 2);
        term2 := CalculateCentralMomentRecursive(mean, power, level / 2);
        if |left| >= 2 * half {
          assert left[half..][half..] == left[2 * half..];
        }
      }
      r := ops.mul(ops.add(term1, term2), ops.half);
    }

    /**
     The moment is the average over the first 4096 counts of the bins, which are all of them if they add up to that. An
     error is recorded iff they add up to less.
     */
    method CalculateCentralMoment(mean: int, power: nat) returns (r: int)
      requires Valid() && power >= 1
      modifies `iteratorIndex, `iteratorCount, `cachedHistogramCount, `cachedScaledSample, `fix16ErrorOccurred
      ensures fix16ErrorOccurred == (old(fix16ErrorOccurred) || Sum(Counts()) < 4096)
      ensures |Visits(Counts(), 0)| == Sum(Counts()) && TermCount(4096) == 4096
      ensures Sum(Counts()) >= 4096 ==>
                r == Averaged(Visits(Counts(), 0)[..4096], mean, power, 4096, ops)
      ensures Sum(Counts()) == 4096 ==> r == Averaged(Visits(Counts(), 0), mean, power, 4096, ops)
    {
      hide Bins, Remaining, TermCount, Averaged, Visits, Sum, Iterating, Coming;
      ghost var all := Visits(Counts(), 0);
      VisitsSize(Counts(), 0);
      assert Counts()[0..] == Counts();
      AllSamples();
      ResetIterator();
      r := CalculateCentralMomentRecursive(mean, power, SAMPLE_COUNT);
      if |all| == SAMPLE_COUNT {
        assert all[..SAMPLE_COUNT] == all;
      }
    }
  }

  lemma SomeTerms(level: nat)
    ensures TermCount(level) >= 2 && TermCount(level) == if level <= 2 then 2 else 2 * TermCount(level / 2)
  {
  }

  /** The average of the first terms from the terms, or the averages, of its halves. */
  lemma AveragedIs(left: seq<nat>, mean: int, power: nat, level: nat, ops: Fixed)
    requires power >= 1 && |left| >= TermCount(level)
    ensures level <= 2 ==>
              && TermCount(level) == 2
              && Averaged(left[..2], mean, power, level, ops)
                 == ops.mul(ops.add(Term(left[0], mean, power, ops), Term(left[1], mean, power, ops)), ops.half)
    ensures level > 2 ==>
              var half := TermCount(level / 2);
              && TermCount(level) == 2 * half
              && Averaged(left[..2 * half], mean, power, level, ops)
                 == ops.mul(ops.add(Averaged(left[..half], mean, power, level / 2, ops),
                                    Averaged(left[half..][..half], mean, power, level / 2, ops)), ops.half)
  {
    hide Term;
    if level > 2 {
      var half := TermCount(level / 2);
      var all := left[..2 * half];
      assert all[..half] == left[..half] && all[half..] == left[half..][..half];
    }
  }

  lemma BinDone(bins: seq<nat>, i: nat, count: nat)
    requires i < |bins| && count == bins[i]
    ensures Remaining(bins, i, count) == if i + 1 < |bins| then Remaining(bins, i + 1, 0) else []
  {
    assert Repeat(i, 0) + Visits(bins, i + 1) == Visits(bins, i + 1);
  }

  lemma OneVisit(bins: seq<nat>, i: nat, count: nat)
    requires i < |bins| && count < bins[i]
    ensures Remaining(bins, i, count) == [i] + Remaining(bins, i, count + 1)
  {
    assert Repeat(i, bins[i] - count) == [i] + Repeat(i, bins[i] - count - 1);
    assert [i] + Repeat(i, bins[i] - count - 1) + Visits(bins, i + 1)
        == [i] + (Repeat(i, bins[i] - count - 1) + Visits(bins, i + 1));
  }

  lemma Cleared(words: seq<nat>)
    requires forall i :: 0 <= i < |words| ==> words[i] == 0
    ensures Words(words) && Sum(Bins(words)) == 0
  {
    hide Num, Sum, Pow2;
    NumZero(words);
    forall i | 0 <= i < HISTOGRAM_NUM_BINS
      ensures Bins(words)[i] == 0
    {
      ZeroField(BITS * i);
    }
    SumZero(Bins(words));
  }

  lemma ZeroField(bit: nat)
    ensures FieldAt(0, bit) == 0
  {
    hide Pow2;
    SmallMod(0, Pow2(bit));
    FieldIs(0, bit);
  }

  lemma GetIs(s: seq<nat>, k: nat, b: nat)
    requires k + 1 < |s| && b < 32
    ensures var r := BitAnd(ShiftRight(s[k], b), MAX_HISTOGRAM_VALUE);
            Get(s, k, b) == if b + BITS > 32 then BitAnd(BitOrNat(r, ShiftLeft(s[k + 1], 32 - b)), MAX_HISTOGRAM_VALUE)
                else r
  {
  }

  lemma ShiftFits(x: nat, k: nat)
    ensures ShiftLeft(x, k) < WORD
  {
  }

  lemma MaskFits(k: nat)
    requires k <= 32
    ensures 1 <= Pow2(k) <= WORD
  {
    Pow2Mono(k, 32);
    Pow2Values();
  }
}
