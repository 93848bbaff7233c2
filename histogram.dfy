/**
 * The column intensity histogram of the grayscale frame loop and its
 * reduction to the drive mode.
 *
 * Five 16-bit buckets of 32 columns each are accumulated from the encoded
 * bytes of every fourth line of the lines sent, divided by 600, and reduced
 * to a weighted mean column (1..5) rounded to the nearest whole number with
 * ties going down.
 */
module Histogram {
  import opened Config
  import opened LineStreams
  import opened Optional

  /** An unsigned 16-bit value; additions into it wrap modulo 65536. */
  type u16 = x: int | 0 <= x < 0x1_0000

  const BUCKETS: nat := 5
  const BUCKET_WIDTH: nat := 32
  const DIVISOR: nat := 600

  function Zeros(): (h: seq<u16>)
    ensures |h| == BUCKETS && forall i :: 0 <= i < BUCKETS ==> h[i] == 0
  {
    [0, 0, 0, 0, 0]
  }

  /**
   * Bucket of line byte x.  Both bytes of a pair go to the bucket of the
   * pair's even index, which is the bucket of x itself, always one of 0..4.
   */
  function PairBucket(x: nat): (b: nat)
    requires x < LINE_LENGTH
    ensures b == x / BUCKET_WIDTH && b < BUCKETS
  {
    var pixelX := x - x % 2;
    pixelX / BUCKET_WIDTH
  }

  /** Whether line y contributes: the second test always holds for the 60 lines sent. */
  predicate SampledLine(y: nat)
  {
    y % 4 == 0 && y <= LINE_COUNT / 2
  }

  lemma SampledLineBelowHalf(y: nat)
    requires y < LINE_COUNT / 2
    ensures SampledLine(y) <==> y % 4 == 0
  {
  }

  /** The buckets after adding the first n encoded bytes of a line, with 16-bit wrap-around. */
  function AccumulateLine(h: seq<u16>, enc: seq<bv8>, n: nat): (r: seq<u16>)
    requires |h| == BUCKETS && n <= |enc| <= LINE_LENGTH
    ensures |r| == BUCKETS
  {
    if n == 0 then h
    else
      var p := AccumulateLine(h, enc, n - 1);
      var b := PairBucket(n - 1);
      p[b := (p[b] + enc[n - 1] as int) % 0x1_0000]
  }

  /** Sum of the first n bytes of enc that fall in bucket b, without wrap-around. */
  function BucketSum(enc: seq<bv8>, b: nat, n: nat): nat
    requires n <= |enc|
  {
    if n == 0 then 0
    else BucketSum(enc, b, n - 1) + (if (n - 1) / BUCKET_WIDTH == b then enc[n - 1] as int else 0)
  }

  /** How many of the first n bytes of a line fall in bucket b. */
  function BucketBytes(b: nat, n: nat): (m: nat)
    ensures m <= BUCKET_WIDTH
  {
    if n <= BUCKET_WIDTH * b then 0
    else if n - BUCKET_WIDTH * b >= BUCKET_WIDTH then BUCKET_WIDTH
    else n - BUCKET_WIDTH * b
  }

  /** Byte n - 1 joins bucket b exactly when it lies in that bucket's 32 positions. */
  lemma BucketBytesStep(b: nat, n: nat)
    requires n > 0
    ensures (n - 1) / BUCKET_WIDTH == b ==>
      (n - 1) % 2 == BucketBytes(b, n - 1) % 2 && BucketBytes(b, n) == BucketBytes(b, n - 1) + 1
    ensures (n - 1) / BUCKET_WIDTH != b ==> BucketBytes(b, n) == BucketBytes(b, n - 1)
  {
    if (n - 1) / BUCKET_WIDTH == b {
      assert n - 1 == BUCKET_WIDTH * b + BucketBytes(b, n - 1);
    }
  }

  /** The sum of the first m bytes of the alternating sequence p, q, p, q, ... */
  function AlternatingTotal(p: int, q: int, m: nat): int
  {
    if m == 0 then 0 else AlternatingTotal(p, q, m - 1) + (if (m - 1) % 2 == 0 then p else q)
  }

  /** k whole pairs of the alternating sequence sum to k times p + q. */
  lemma {:induction false} AlternatingPairs(p: int, q: int, k: nat)
    ensures AlternatingTotal(p, q, 2 * k) == k * (p + q)
  {
    if k > 0 {
      AlternatingPairs(p, q, k - 1);
      assert AlternatingTotal(p, q, 2 * k) == AlternatingTotal(p, q, 2 * (k - 1)) + p + q;
    }
  }

  /**
   * In a line whose bytes alternate p (even positions) and q (odd positions),
   * the m bytes of bucket b sum like the first m bytes of p, q, p, q, ...
   */
  lemma {:induction false} AlternatingBucketSum(enc: seq<bv8>, p: bv8, q: bv8, b: nat, n: nat)
    requires n <= |enc|
    requires forall i :: 0 <= i < |enc| ==> enc[i] == if i % 2 == 0 then p else q
    ensures BucketSum(enc, b, n) == AlternatingTotal(p as int, q as int, BucketBytes(b, n))
  {
    if n > 0 {
      AlternatingBucketSum(enc, p, q, b, n - 1);
      BucketBytesStep(b, n);
      var m := BucketBytes(b, n - 1);
      if (n - 1) / BUCKET_WIDTH == b {
        assert BucketSum(enc, b, n) == BucketSum(enc, b, n - 1) + enc[n - 1] as int;
        assert enc[n - 1] as int == if m % 2 == 0 then p as int else q as int;
        assert AlternatingTotal(p as int, q as int, m + 1)
          == AlternatingTotal(p as int, q as int, m) + (if m % 2 == 0 then p as int else q as int);
      } else {
        assert BucketSum(enc, b, n) == BucketSum(enc, b, n - 1);
      }
    }
  }

  lemma ModAddAssoc(a: int, s: int, v: int)
    ensures ((a + s) % 0x1_0000 + v) % 0x1_0000 == (a + s + v) % 0x1_0000
  {
  }

  /** Each bucket holds its true sum modulo 65536. */
  lemma {:induction false} AccumulateLineSums(h: seq<u16>, enc: seq<bv8>, n: nat, b: nat)
    requires |h| == BUCKETS && n <= |enc| <= LINE_LENGTH && b < BUCKETS
    ensures AccumulateLine(h, enc, n)[b] == (h[b] + BucketSum(enc, b, n)) % 0x1_0000
  {
    if n > 0 {
      AccumulateLineSums(h, enc, n - 1, b);
      ModAddAssoc(h[b], BucketSum(enc, b, n - 1), enc[n - 1] as int);
    }
  }

  predicate LinesOfLength(lines: seq<seq<bv8>>, n: nat, len: nat)
  {
    n <= |lines| && forall y :: 0 <= y < n ==> |lines[y]| == len
  }

  /** The buckets after the first n lines of the frame, from zero at frame start. */
  function FrameHistogram(lines: seq<seq<bv8>>, n: nat): (r: seq<u16>)
    requires LinesOfLength(lines, n, LINE_LENGTH)
    ensures |r| == BUCKETS
  {
    if n == 0 then Zeros()
    else
      var h := FrameHistogram(lines, n - 1);
      if SampledLine(n - 1) then AccumulateLine(h, GrayscaleLineBytes(lines[n - 1]), LINE_LENGTH) else h
  }

  /** Sum over the sampled lines among the first n of the bucket-b bytes, without wrap-around. */
  function FrameBucketSum(lines: seq<seq<bv8>>, n: nat, b: nat): nat
    requires LinesOfLength(lines, n, LINE_LENGTH)
  {
    if n == 0 then 0
    else FrameBucketSum(lines, n - 1, b)
         + (if SampledLine(n - 1) then BucketSum(GrayscaleLineBytes(lines[n - 1]), b, LINE_LENGTH) else 0)
  }

  /** The frame's buckets are the true per-column sums of the sampled lines, modulo 65536. */
  lemma {:induction false} FrameHistogramSums(lines: seq<seq<bv8>>, n: nat, b: nat)
    requires LinesOfLength(lines, n, LINE_LENGTH) && b < BUCKETS
    ensures FrameHistogram(lines, n)[b] == FrameBucketSum(lines, n, b) % 0x1_0000
  {
    if n > 0 {
      FrameHistogramSums(lines, n - 1, b);
      if SampledLine(n - 1) {
        var enc := GrayscaleLineBytes(lines[n - 1]);
        AccumulateLineSums(FrameHistogram(lines, n - 1), enc, LINE_LENGTH, b);
        ModAddAssoc(FrameBucketSum(lines, n - 1, b), 0, BucketSum(enc, b, LINE_LENGTH));
      }
    }
  }

  /** Lines that are not sampled have no effect on the histogram. */
  lemma {:induction false} HistogramIgnoresUnsampledLines(lines: seq<seq<bv8>>, other: seq<seq<bv8>>, n: nat)
    requires LinesOfLength(lines, n, LINE_LENGTH) && LinesOfLength(other, n, LINE_LENGTH)
    requires forall y :: 0 <= y < n && SampledLine(y) ==> lines[y] == other[y]
    ensures FrameHistogram(lines, n) == FrameHistogram(other, n)
  {
    if n > 0 {
      HistogramIgnoresUnsampledLines(lines, other, n - 1);
    }
  }

  /** The buckets after dividing each by 600; each is at most 109. */
  function Normalize(h: seq<u16>): (c: seq<u16>)
    requires |h| == BUCKETS
    ensures |c| == BUCKETS
    ensures forall i :: 0 <= i < BUCKETS ==> c[i] <= 109 && c[i] * DIVISOR <= h[i] < (c[i] + 1) * DIVISOR
  {
    seq(BUCKETS, i requires 0 <= i < BUCKETS => h[i] / DIVISOR)
  }

  /** Sum of (i+1) * c[i] over the first n buckets. */
  function WeightedSum(c: seq<u16>, n: nat): int
    requires n <= |c|
  {
    if n == 0 then 0 else WeightedSum(c, n - 1) + n * c[n - 1]
  }

  /** Sum of the first n buckets. */
  function Total(c: seq<u16>, n: nat): int
    requires n <= |c|
  {
    if n == 0 then 0 else Total(c, n - 1) + c[n - 1]
  }

  /** The products WeightedSumBounds needs, for a positive n and non-negative t and x. */
  lemma ScaleStep(n: nat, t: int, x: int)
    requires n >= 1 && t >= 0 && x >= 0
    ensures (n - 1) * t <= n * t && x <= n * x && n * (t + x) == n * t + n * x
  {
    assert n * t == (n - 1) * t + t;
    assert n * x == (n - 1) * x + x;
  }

  /** The weighted sum lies between the total and n times it. */
  lemma {:induction false} WeightedSumBounds(c: seq<u16>, n: nat)
    requires n <= |c|
    ensures 0 <= Total(c, n) <= WeightedSum(c, n) <= n * Total(c, n)
  {
    if n > 0 {
      WeightedSumBounds(c, n - 1);
      ScaleStep(n, Total(c, n - 1), c[n - 1] as int);
    }
  }

  /**
   * w / s rounded as camera.cpp rounds it: up exactly when the fraction is
   * strictly above one half, so a tie rounds down.
   */
  function RoundedQuotient(w: int, s: int): (m: int)
    requires s > 0 && w >= 0
    ensures -s < 2 * (w - m * s) <= s
  {
    var q := w / s;
    assert w == q * s + w % s;
    if 2 * w > (2 * q + 1) * s then q + 1 else q
  }

  /**
   * The mode handed to drive: the column number 1..5 nearest to the weighted
   * mean WeightedSum / Total of the column numbers, a tie going to the lower
   * one, and 0 when every normalized bucket is 0.  The mean is above k + 1/2
   * exactly when 2 * WeightedSum > (2 * k + 1) * Total.
   */
  function Mode(c: seq<u16>): (m: int)
    requires |c| == BUCKETS
    ensures 0 <= m <= 5
    ensures m == 0 <==> Total(c, BUCKETS) == 0
  {
    var s := Total(c, BUCKETS);
    var w := WeightedSum(c, BUCKETS);
    if s == 0 then 0
    else if 2 * w <= 3 * s then 1
    else if 2 * w <= 5 * s then 2
    else if 2 * w <= 7 * s then 3
    else if 2 * w <= 9 * s then 4
    else 5
  }

  /** At most one integer lies within one half of w / s. */
  lemma RoundingIsUnique(w: int, s: int, m1: int, m2: int)
    requires s > 0
    requires -s < 2 * (w - m1 * s) <= s
    requires -s < 2 * (w - m2 * s) <= s
    ensures m1 == m2
  {
    var d := m1 - m2;
    assert m1 * s - m2 * s == d * s;
    assert -s < d * s < s;
    if d >= 1 {
      NonNegativeProduct(d - 1, s);
    } else if d <= -1 {
      NonNegativeProduct(-d - 1, s);
    }
  }

  lemma NonNegativeProduct(a: int, b: int)
    requires a >= 0 && b >= 0
    ensures a * b >= 0
  {
  }

  /** The mode is the weighted mean of the column numbers, rounded. */
  lemma ModeIsRoundedMean(c: seq<u16>)
    requires |c| == BUCKETS && Total(c, BUCKETS) > 0
    ensures var s, w := Total(c, BUCKETS), WeightedSum(c, BUCKETS);
      -s < 2 * (w - Mode(c) * s) <= s
  {
    WeightedSumBounds(c, BUCKETS);
  }

  /**
   * The mode as camera.cpp computes it: with every normalized bucket 0 it
   * divides 0.0 by 0.0 and converts the NaN to an integer, which C++ leaves
   * undefined (None here).
   */
  function ModeAsWritten(c: seq<u16>): (m: Option<int>)
    requires |c| == BUCKETS
    ensures m.None? <==> Total(c, BUCKETS) == 0
  {
    var s := Total(c, BUCKETS);
    if s == 0 then None
    else
      WeightedSumBounds(c, BUCKETS);
      Some(RoundedQuotient(WeightedSum(c, BUCKETS), s))
  }

  /** Wherever the division is defined, the guarded mode agrees with it. */
  lemma ModeAgreesWhereDefined(c: seq<u16>)
    requires |c| == BUCKETS
    ensures ModeAsWritten(c).Some? ==> ModeAsWritten(c).value == Mode(c)
  {
    var s, w := Total(c, BUCKETS), WeightedSum(c, BUCKETS);
    if s > 0 {
      WeightedSumBounds(c, BUCKETS);
      ModeIsRoundedMean(c);
      RoundingIsUnique(w, s, RoundedQuotient(w, s), Mode(c));
    }
  }

  /**
   * A frame whose five 16-bit bucket sums have all wrapped to 432 (true sums
   * of 65968 each) normalizes to all zeros, and the unguarded mode is undefined.
   */
  lemma WrappedBucketsReachUndefinedMode()
    ensures Normalize([65968 % 0x1_0000, 65968 % 0x1_0000, 65968 % 0x1_0000, 65968 % 0x1_0000, 65968 % 0x1_0000]) == Zeros()
    ensures ModeAsWritten(Zeros()).None?
    ensures Mode(Zeros()) == 0
  {
    var n := Normalize([432, 432, 432, 432, 432]);
    assert n == Zeros();
  }

  /** Set when two neighbouring normalized buckets are equal. */
  predicate Unexpected(c: seq<u16>)
    requires |c| == BUCKETS
  {
    exists j :: 0 <= j < BUCKETS - 1 && c[j] == c[j + 1]
  }

  /** Worked examples: exact quotients (21 / 7, 30 / 10), a tie (3 / 2 rounds down), a fraction above one half (11 / 3 rounds up). */
  lemma ModeExamples()
    ensures Normalize([600, 600, 1200, 1800, 300]) == [1, 1, 2, 3, 0]
    ensures Mode([1, 1, 2, 3, 0]) == 3 && Unexpected([1, 1, 2, 3, 0])
    ensures Mode([1, 1, 0, 0, 0]) == 1
    ensures Mode([1, 0, 0, 0, 2]) == 4 && Unexpected([1, 0, 0, 0, 2])
    ensures Mode([3, 2, 1, 0, 4]) == 3 && !Unexpected([3, 2, 1, 0, 4])
  {
    assert Normalize([600, 600, 1200, 1800, 300]) == [1, 1, 2, 3, 0];
    assert Unexpected([1, 1, 2, 3, 0]) by { assert [1, 1, 2, 3, 0][0] == [1, 1, 2, 3, 0][1]; }
    assert Unexpected([1, 0, 0, 0, 2]) by { assert [1, 0, 0, 0, 2][1] == [1, 0, 0, 0, 2][2]; }
  }
}
