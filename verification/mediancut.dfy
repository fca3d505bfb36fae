/** MedianCutAlgorithm and its helpers longest_axisRGB and sortColourRGB.

    A bucket is the half-open index range [start, end) of the sample
    sequence.  A bucket of at most MaxElementCount samples becomes one palette
    entry, the floor mean of its samples; a larger one is sorted along its
    widest channel and cut in two at start + (end - start) / 2.  The shared
    palette cursor of the program is the length of the palette accumulated
    so far. */
module MedianCut {
  import opened Pixels
  import opened ManualSort

  /** Why a quantization has no result.  EmptyBucket is the division by zero
      of a leaf with no samples; ZeroPaletteSize the division by a palette
      size of 0; PaletteOverflow a leaf written past the end of the palette
      array. */
  datatype QuantError = EmptyBucket | ZeroPaletteSize | PaletteOverflow

  datatype Result<T> = Ok(value: T) | Err(error: QuantError)

  /** The samples after the cut (sorted bucket by bucket) and the palette. */
  datatype Cut = Cut(colour: seq<Rgb>, palette: seq<Rgb>)

  function Pow2(k: nat): (p: nat)
    ensures p >= 1
  {
    if k == 0 then 1 else 2 * Pow2(k - 1)
  }

  // ---------------------------------------------------------------------------
  // Channel statistics of a bucket

  function KeysOf(s: seq<Rgb>, col: Axis): (ks: seq<int>)
    ensures |ks| == |s| && forall i :: 0 <= i < |s| ==> ks[i] == Key(s[i], col)
  {
    seq(|s|, i requires 0 <= i < |s| => Key(s[i], col))
  }

  function Sum(xs: seq<int>): int
  {
    if xs == [] then 0 else Sum(xs[..|xs| - 1]) + xs[|xs| - 1]
  }

  function Max(xs: seq<int>): (m: int)
    requires |xs| >= 1
    ensures forall i :: 0 <= i < |xs| ==> xs[i] <= m
    ensures exists i :: 0 <= i < |xs| && xs[i] == m
  {
    if |xs| == 1 then xs[0]
    else
      var m := Max(xs[..|xs| - 1]);
      assert forall i :: 0 <= i < |xs| - 1 ==> xs[..|xs| - 1][i] == xs[i];
      if xs[|xs| - 1] > m then xs[|xs| - 1] else m
  }

  function Min(xs: seq<int>): (m: int)
    requires |xs| >= 1
    ensures forall i :: 0 <= i < |xs| ==> m <= xs[i]
    ensures exists i :: 0 <= i < |xs| && xs[i] == m
  {
    if |xs| == 1 then xs[0]
    else
      var m := Min(xs[..|xs| - 1]);
      assert forall i :: 0 <= i < |xs| - 1 ==> xs[..|xs| - 1][i] == xs[i];
      if xs[|xs| - 1] < m then xs[|xs| - 1] else m
  }

  /** How far a channel spreads over a bucket: max minus min. */
  function Extent(s: seq<Rgb>, col: Axis): (e: int)
    requires |s| >= 1
    ensures 0 <= e <= 255
    ensures forall i, j :: 0 <= i < |s| && 0 <= j < |s| ==> Key(s[i], col) - Key(s[j], col) <= e
    ensures exists i, j :: 0 <= i < |s| && 0 <= j < |s| && Key(s[i], col) - Key(s[j], col) == e
  {
    Max(KeysOf(s, col)) - Min(KeysOf(s, col))
  }

  /** longest_axisRGB: red only when strictly widest, blue when at least as
      wide as red and strictly wider than green, green otherwise. */
  function LongestAxis(er: int, eg: int, eb: int): (axis: Axis)
    ensures axis == RedAxis <==> er > eg && er > eb
    ensures axis == BlueAxis <==> eb >= er && eb > eg
    ensures eg >= er && eg >= eb ==> axis == GreenAxis
    ensures var e := if axis == RedAxis then er else if axis == GreenAxis then eg else eb;
            e >= er && e >= eg && e >= eb
  {
    if er > eb then
      if er > eg then RedAxis else GreenAxis
    else
      if eb > eg then BlueAxis else GreenAxis
  }

  /** The channel a bucket is cut along. */
  function CutAxis(s: seq<Rgb>): Axis
    requires |s| >= 1
  {
    LongestAxis(Extent(s, RedAxis), Extent(s, GreenAxis), Extent(s, BlueAxis))
  }

  /** The chosen axis is one of maximal extent, and green wins every tie it is part of. */
  lemma CutAxisIsWidest(s: seq<Rgb>, other: Axis)
    requires |s| >= 1
    ensures Extent(s, CutAxis(s)) >= Extent(s, other)
    ensures Extent(s, GreenAxis) >= Extent(s, RedAxis) && Extent(s, GreenAxis) >= Extent(s, BlueAxis)
            ==> CutAxis(s) == GreenAxis
  {
  }

  // ---------------------------------------------------------------------------
  // Leaves

  lemma {:induction false} SumBounds(xs: seq<int>, low: int, high: int)
    requires forall i :: 0 <= i < |xs| ==> low <= xs[i] <= high
    ensures |xs| * low <= Sum(xs) <= |xs| * high
  {
    if xs != [] {
      SumBounds(xs[..|xs| - 1], low, high);
    }
  }

  /** The floor mean of one channel of a non-empty bucket. */
  function MeanKey(s: seq<Rgb>, col: Axis): (v: int)
    requires |s| >= 1
    ensures v * |s| <= Sum(KeysOf(s, col)) < (v + 1) * |s|
    ensures Min(KeysOf(s, col)) <= v <= Max(KeysOf(s, col))
    ensures 0 <= v <= 255
  {
    var ks := KeysOf(s, col);
    SumBounds(ks, Min(ks), Max(ks));
    FloorDivBounds(Sum(ks), |s|, Min(ks), Max(ks));
    Sum(ks) / |s|
  }

  lemma FloorDivBounds(a: int, n: int, low: int, high: int)
    requires n >= 1 && n * low <= a <= n * high
    ensures (a / n) * n <= a < (a / n + 1) * n
    ensures low <= a / n <= high
  {
    var q := a / n;
    assert a == q * n + a % n;
    if q < low {
      assert (low - q) * n >= n by { AtLeastDivisor(low - q, n); }
    }
    if q > high {
      assert (q - high) * n >= n by { AtLeastDivisor(q - high, n); }
    }
  }

  /** The palette entry of a leaf: the floor mean of each channel
      (average_R /= end - start, and likewise for G and B). */
  function Mean(s: seq<Rgb>): (c: Rgb)
    requires |s| >= 1
    ensures forall col :: Min(KeysOf(s, col)) <= Key(c, col) <= Max(KeysOf(s, col))
  {
    Rgb(MeanKey(s, RedAxis), MeanKey(s, GreenAxis), MeanKey(s, BlueAxis))
  }

  /** If every sample of a bucket has a channel in [low, high], so does its mean. */
  lemma MeanInBand(s: seq<Rgb>, col: Axis, low: int, high: int)
    requires |s| >= 1
    requires forall i :: 0 <= i < |s| ==> low <= Key(s[i], col) <= high
    ensures low <= Key(Mean(s), col) <= high
  {
    var ks := KeysOf(s, col);
    assert Min(ks) >= low;
    assert Max(ks) <= high;
  }

  /** A bucket of one colour has that colour as its mean. */
  lemma MeanOfUniform(s: seq<Rgb>, c: Rgb)
    requires |s| >= 1 && forall i :: 0 <= i < |s| ==> s[i] == c
    ensures Mean(s) == c
  {
    MeanInBand(s, RedAxis, c.r, c.r);
    MeanInBand(s, GreenAxis, c.g, c.g);
    MeanInBand(s, BlueAxis, c.b, c.b);
  }

  /** The number of leaves the recursion reaches on a bucket of len samples. */
  function LeafCount(len: nat, maxCount: nat): nat
    requires maxCount >= 1
  {
    if len <= maxCount then 1
    else LeafCount(len / 2, maxCount) + LeafCount(len - len / 2, maxCount)
  }

  /** The leaf buckets the recursion reaches on [start, end), left to right:
      a bucket of at most maxCount samples is a leaf, a larger one is cut at
      start + (end - start) / 2.  They depend on the lengths only. */
  function LeafRanges(start: nat, end: nat, maxCount: nat): (rs: seq<(nat, nat)>)
    requires start <= end && maxCount >= 1
    decreases end - start
    ensures |rs| == LeafCount(end - start, maxCount)
  {
    if end - start <= maxCount then [(start, end)]
    else
      var mid := start + (end - start) / 2;
      LeafRanges(start, mid, maxCount) + LeafRanges(mid, end, maxCount)
  }

  /** The leaves of a non-empty bucket are non-empty and lie inside it. */
  lemma {:induction false} LeafRangesWithin(start: nat, end: nat, maxCount: nat)
    requires start < end && maxCount >= 1
    decreases end - start
    ensures forall k :: 0 <= k < |LeafRanges(start, end, maxCount)| ==>
              start <= LeafRanges(start, end, maxCount)[k].0 < LeafRanges(start, end, maxCount)[k].1 <= end
  {
    if end - start > maxCount {
      var mid := start + (end - start) / 2;
      var left, right := LeafRanges(start, mid, maxCount), LeafRanges(mid, end, maxCount);
      LeafRangesWithin(start, mid, maxCount);
      LeafRangesWithin(mid, end, maxCount);
      var rs := LeafRanges(start, end, maxCount);
      assert rs == left + right;
      forall k | 0 <= k < |rs|
        ensures start <= rs[k].0 < rs[k].1 <= end
      {
        if k >= |left| {
          assert rs[k] == right[k - |left|];
        }
      }
    }
  }

  /** Every bucket reaches at least one leaf. */
  lemma {:induction false} LeafCountPositive(len: nat, maxCount: nat)
    requires maxCount >= 1
    ensures LeafCount(len, maxCount) >= 1
    decreases len
  {
    if len > maxCount {
      LeafCountPositive(len / 2, maxCount);
    }
  }

  /** sortColourRGB: longest_axisRGB picks the widest channel of the bucket
      [start, end) and manual_qsort(colour, start, end - 1, column) sorts
      the bucket on it. */
  method SortBucket(colour: seq<Rgb>, start: nat, end: nat) returns (sorted: seq<Rgb>)
    requires start < end <= |colour|
    ensures Perm(colour, sorted, start, end - 1)
    ensures SortedOn(sorted, CutAxis(colour[start..end]), start, end - 1)
  {
    sorted := QSort(colour, CutAxis(colour[start..end]), start, end - 1);
  }

  /** The palette cursor after both halves of a split has advanced by the
      leaves of the whole bucket. */
  lemma CountAfterSplit(n0: nat, n1: nat, n2: nat, start: nat, mid: nat, end: nat, maxCount: nat)
    requires end - start > maxCount >= 1 && mid == start + (end - start) / 2
    requires n1 == n0 + LeafCount(mid - start, maxCount)
    requires n2 == n1 + LeafCount(end - mid, maxCount)
    ensures n2 == n0 + LeafCount(end - start, maxCount)
  {
  }

  /** Entries [from, |p|) of a palette have channel col in [low, high]. */
  ghost predicate EntriesInBand(p: seq<Rgb>, from: int, col: Axis, low: int, high: int)
  {
    forall k :: 0 <= from <= k < |p| ==> low <= Key(p[k], col) <= high
  }

  /** Entries [from, |p|) lie in every channel band that holds all samples of
      the bucket [start, end) of colour. */
  ghost predicate EntriesWithinBucket(p: seq<Rgb>, from: int, colour: seq<Rgb>, start: int, end: int)
  {
    forall col, low, high :: InBand(colour, col, start, end - 1, low, high) ==> EntriesInBand(p, from, col, low, high)
  }

  /** Every range of rs is a non-empty slice of a sequence of n samples. */
  ghost predicate RangesWithin(rs: seq<(nat, nat)>, n: nat)
  {
    forall k :: 0 <= k < |rs| ==> rs[k].0 < rs[k].1 <= n
  }

  /** The samples of each range of rs, in order. */
  function LeafBuckets(colour: seq<Rgb>, rs: seq<(nat, nat)>): (bs: seq<seq<Rgb>>)
    requires RangesWithin(rs, |colour|)
    ensures |bs| == |rs| && forall k :: 0 <= k < |bs| ==> |bs[k]| >= 1
  {
    if rs == [] then [] else [colour[rs[0].0..rs[0].1]] + LeafBuckets(colour, rs[1..])
  }

  /** The mean colour of each bucket, in order. */
  function MeansOf(bs: seq<seq<Rgb>>): (es: seq<Rgb>)
    requires forall k :: 0 <= k < |bs| ==> |bs[k]| >= 1
    ensures |es| == |bs| && forall k :: 0 <= k < |bs| ==> es[k] == Mean(bs[k])
  {
    seq(|bs|, k requires 0 <= k < |bs| => Mean(bs[k]))
  }

  /** Entries [from, |p|) are, one per range of rs and in order, the mean
      colour of that range of colour, and there are no other entries. */
  ghost predicate LeafMeans(p: seq<Rgb>, from: nat, colour: seq<Rgb>, rs: seq<(nat, nat)>)
  {
    && from <= |p|
    && RangesWithin(rs, |colour|)
    && p[from..] == MeansOf(LeafBuckets(colour, rs))
  }

  /** Bucket k is the slice of range k. */
  lemma {:induction false} LeafBucketsAt(colour: seq<Rgb>, rs: seq<(nat, nat)>)
    requires RangesWithin(rs, |colour|)
    ensures forall k :: 0 <= k < |rs| ==> LeafBuckets(colour, rs)[k] == colour[rs[k].0..rs[k].1]
  {
    if rs != [] {
      LeafBucketsAt(colour, rs[1..]);
      forall k | 1 <= k < |rs|
        ensures LeafBuckets(colour, rs)[k] == colour[rs[k].0..rs[k].1]
      {
        assert rs[1..][k - 1] == rs[k];
      }
    }
  }

  /** Read entry by entry: entry from + k is the floor mean of the samples
      of range k. */
  lemma LeafMeansAt(p: seq<Rgb>, from: nat, colour: seq<Rgb>, rs: seq<(nat, nat)>)
    requires LeafMeans(p, from, colour, rs)
    ensures |p| == from + |rs|
    ensures forall k :: 0 <= k < |rs| ==>
              rs[k].0 < rs[k].1 <= |colour| && p[from + k] == Mean(colour[rs[k].0..rs[k].1])
  {
    LeafBucketsAt(colour, rs);
    forall k | 0 <= k < |rs|
      ensures p[from + k] == Mean(colour[rs[k].0..rs[k].1])
    {
      assert p[from + k] == p[from..][k];
    }
  }

  /** The buckets of two consecutive range lists join. */
  lemma {:induction false} LeafBucketsAppend(colour: seq<Rgb>, left: seq<(nat, nat)>, right: seq<(nat, nat)>)
    requires RangesWithin(left, |colour|) && RangesWithin(right, |colour|)
    ensures RangesWithin(left + right, |colour|)
    ensures LeafBuckets(colour, left + right) == LeafBuckets(colour, left) + LeafBuckets(colour, right)
  {
    if left == [] {
      assert left + right == right;
    } else {
      LeafBucketsAppend(colour, left[1..], right);
      assert (left + right)[1..] == left[1..] + right;
    }
  }

  /** The means of two lists of buckets join. */
  lemma MeansOfAppend(a: seq<seq<Rgb>>, b: seq<seq<Rgb>>)
    requires forall k :: 0 <= k < |a| ==> |a[k]| >= 1
    requires forall k :: 0 <= k < |b| ==> |b[k]| >= 1
    ensures MeansOf(a + b) == MeansOf(a) + MeansOf(b)
  {
    var l, r := MeansOf(a + b), MeansOf(a) + MeansOf(b);
    forall k | 0 <= k < |l|
      ensures l[k] == r[k]
    {
      if k < |a| {
        assert (a + b)[k] == a[k];
      } else {
        assert (a + b)[k] == b[k - |a|];
      }
    }
  }

  /** The buckets of ranges below mid are the same in two sequences that
      agree below mid. */
  lemma {:induction false} LeafBucketsKept(lc: seq<Rgb>, rc: seq<Rgb>, rs: seq<(nat, nat)>, mid: nat)
    requires |lc| == |rc| && RangesWithin(rs, |lc|)
    requires forall i :: 0 <= i < mid && i < |lc| ==> lc[i] == rc[i]
    requires forall k :: 0 <= k < |rs| ==> rs[k].1 <= mid
    ensures LeafBuckets(rc, rs) == LeafBuckets(lc, rs)
  {
    if rs != [] {
      LeafBucketsKept(lc, rc, rs[1..], mid);
      assert rc[rs[0].0..rs[0].1] == lc[rs[0].0..rs[0].1];
    }
  }

  /** The split structure the cut leaves in a bucket b: a bucket of more
      than maxCount samples has every sample of its first half at or below
      every sample of its second half on the bucket's widest channel, and
      both halves have the same structure in turn. */
  ghost predicate MedianSplits(b: seq<Rgb>, maxCount: nat)
    requires maxCount >= 1
    decreases |b|
  {
    if |b| <= maxCount then true
    else
      var mid := |b| / 2;
      && SplitOrderedAt(b, mid, CutAxis(b))
      && MedianSplits(b[..mid], maxCount)
      && MedianSplits(b[mid..], maxCount)
  }

  /** Every sample of b before mid is at or below every sample from mid on,
      on channel a. */
  ghost predicate SplitOrderedAt(b: seq<Rgb>, mid: int, a: Axis)
  {
    forall i, j :: 0 <= i < mid <= j < |b| ==> Key(b[i], a) <= Key(b[j], a)
  }

  /** The spread of t is at most that of s when every sample of t is a
      sample of s, as for a sub-bucket or a rearrangement of s. */
  lemma ExtentAtMost(s: seq<Rgb>, t: seq<Rgb>, col: Axis)
    requires |s| >= 1 && |t| >= 1
    requires forall i :: 0 <= i < |t| ==> t[i] in s
    ensures Extent(t, col) <= Extent(s, col)
  {
    var i, j :| 0 <= i < |t| && 0 <= j < |t| && Key(t[i], col) - Key(t[j], col) == Extent(t, col);
    assert t[i] in s && t[j] in s;
    var ki :| 0 <= ki < |s| && s[ki] == t[i];
    var kj :| 0 <= kj < |s| && s[kj] == t[j];
    assert Key(s[ki], col) - Key(s[kj], col) <= Extent(s, col);
  }

  /** Rearranging a bucket changes neither its spread on any channel nor
      the channel it is cut along. */
  lemma CutAxisOfPerm(s: seq<Rgb>, t: seq<Rgb>)
    requires |s| >= 1 && multiset(s) == multiset(t)
    ensures |t| == |s|
    ensures forall col :: Extent(t, col) == Extent(s, col)
    ensures CutAxis(t) == CutAxis(s)
  {
    assert |t| == |multiset(t)| == |multiset(s)| == |s|;
    forall i | 0 <= i < |t|
      ensures t[i] in s
    {
      assert t[i] in multiset(t);
    }
    forall i | 0 <= i < |s|
      ensures s[i] in t
    {
      assert s[i] in multiset(s);
    }
    forall col
      ensures Extent(t, col) == Extent(s, col)
    {
      ExtentAtMost(s, t, col);
      ExtentAtMost(t, s, col);
    }
  }

  /** Two halves that hold the samples of the two halves of a sorted range
      keep every sample of the first at or below every sample of the second. */
  lemma {:induction false} HalvesOrdered(sorted: seq<Rgb>, b: seq<Rgb>, a: Axis, start: nat, mid: nat, end: nat)
    requires start <= mid <= end <= |sorted| && |b| == end - start && |b| / 2 == mid - start
    requires SortedOn(sorted, a, start, end - 1)
    requires multiset(sorted[start..mid]) == multiset(b[..mid - start])
    requires multiset(sorted[mid..end]) == multiset(b[mid - start..])
    ensures SplitOrderedAt(b, |b| / 2, a)
  {
    forall i, j | 0 <= i < mid - start <= j < |b|
      ensures Key(b[i], a) <= Key(b[j], a)
    {
      assert b[i] == b[..mid - start][i];
      assert b[j] == b[mid - start..][j - (mid - start)];
      var p := SameMultisetMember(sorted[start..mid], b[..mid - start], i);
      var q := SameMultisetMember(sorted[mid..end], b[mid - start..], j - (mid - start));
      assert sorted[start + p] == b[i];
      assert sorted[mid + q] == b[j];
    }
  }

  /** The cut of the first half keeps the samples of the sorted first half. */
  lemma {:induction false} FrontHalf(sorted: seq<Rgb>, lc: seq<Rgb>, rc: seq<Rgb>, start: nat, mid: nat, end: nat)
    requires start < mid < end <= |sorted|
    requires Perm(sorted, lc, start, mid - 1) && Perm(lc, rc, mid, end - 1)
    ensures rc[start..mid] == lc[start..mid]
    ensures multiset(sorted[start..mid]) == multiset(rc[start..mid])
  {
    PermRange(sorted, lc, start, mid - 1);
  }

  /** The cut of the second half keeps the samples of the sorted second half. */
  lemma {:induction false} BackHalf(sorted: seq<Rgb>, lc: seq<Rgb>, rc: seq<Rgb>, start: nat, mid: nat, end: nat)
    requires start < mid < end <= |sorted|
    requires Perm(sorted, lc, start, mid - 1) && Perm(lc, rc, mid, end - 1)
    ensures multiset(sorted[mid..end]) == multiset(rc[mid..end])
  {
    PermRange(lc, rc, mid, end - 1);
    assert lc[mid..end] == sorted[mid..end];
  }

  /** After the sort and the two recursive cuts, the bucket holds the
      samples it started with. */
  lemma {:induction false} WholeBucket(colour: seq<Rgb>, sorted: seq<Rgb>, lc: seq<Rgb>, rc: seq<Rgb>,
                                       start: nat, mid: nat, end: nat)
    requires start < mid < end <= |colour|
    requires Perm(colour, sorted, start, end - 1)
    requires Perm(sorted, lc, start, mid - 1) && Perm(lc, rc, mid, end - 1)
    ensures multiset(colour[start..end]) == multiset(rc[start..end])
  {
    JoinHalves(colour, sorted, lc, rc, start, mid, end);
    PermRange(colour, rc, start, end - 1);
  }

  /** After the sort on channel a and the two recursive cuts, the first
      half of the bucket lies at or below its second half on a. */
  lemma {:induction false} SplitOrdered(colour: seq<Rgb>, sorted: seq<Rgb>, lc: seq<Rgb>, rc: seq<Rgb>,
                                        a: Axis, start: nat, mid: nat, end: nat)
    requires start < mid < end <= |colour| && mid == start + (end - start) / 2
    requires Perm(colour, sorted, start, end - 1) && SortedOn(sorted, a, start, end - 1)
    requires Perm(sorted, lc, start, mid - 1) && Perm(lc, rc, mid, end - 1)
    ensures var b := rc[start..end];
            && multiset(colour[start..end]) == multiset(b)
            && b[..|b| / 2] == lc[start..mid] && b[|b| / 2..] == rc[mid..end]
            && SplitOrderedAt(b, |b| / 2, a)
  {
    var b := rc[start..end];
    assert |b| / 2 == mid - start;
    assert b[..|b| / 2] == rc[start..mid];
    assert b[|b| / 2..] == rc[mid..end];
    FrontHalf(sorted, lc, rc, start, mid, end);
    BackHalf(sorted, lc, rc, start, mid, end);
    WholeBucket(colour, sorted, lc, rc, start, mid, end);
    HalvesOrdered(sorted, b, a, start, mid, end);
  }

  /** Sorting the bucket on its widest channel and cutting both halves
      leaves the first half at or below the second half on that channel,
      whatever the halves' own cuts rearrange. */
  lemma {:induction false} SplitMedian(colour: seq<Rgb>, sorted: seq<Rgb>, lc: seq<Rgb>, rc: seq<Rgb>,
                                       start: nat, mid: nat, end: nat, maxCount: nat)
    requires end <= |colour| && maxCount >= 1 && end - start > maxCount && mid == start + (end - start) / 2
    requires Perm(colour, sorted, start, end - 1) && SortedOn(sorted, CutAxis(colour[start..end]), start, end - 1)
    requires Perm(sorted, lc, start, mid - 1) && Perm(lc, rc, mid, end - 1)
    requires MedianSplits(lc[start..mid], maxCount) && MedianSplits(rc[mid..end], maxCount)
    ensures MedianSplits(rc[start..end], maxCount)
  {
    SplitOrdered(colour, sorted, lc, rc, CutAxis(colour[start..end]), start, mid, end);
    JoinSplits(colour[start..end], rc[start..end], maxCount);
  }

  /** A rearranged bucket whose halves are ordered on the original bucket's
      widest channel, and split so in turn, splits as the cut does. */
  lemma JoinSplits(s: seq<Rgb>, b: seq<Rgb>, maxCount: nat)
    requires maxCount >= 1 && |s| > maxCount && multiset(s) == multiset(b)
    requires SplitOrderedAt(b, |b| / 2, CutAxis(s))
    requires MedianSplits(b[..|b| / 2], maxCount) && MedianSplits(b[|b| / 2..], maxCount)
    ensures MedianSplits(b, maxCount)
  {
    CutAxisOfPerm(s, b);
    MedianSplitsJoin(b, maxCount);
  }

  /** A bucket splits as the cut does when its halves are ordered on its
      widest channel and each half splits so in turn. */
  lemma MedianSplitsJoin(b: seq<Rgb>, maxCount: nat)
    requires maxCount >= 1 && |b| > maxCount
    requires SplitOrderedAt(b, |b| / 2, CutAxis(b))
    requires MedianSplits(b[..|b| / 2], maxCount) && MedianSplits(b[|b| / 2..], maxCount)
    ensures MedianSplits(b, maxCount)
  {
  }

  /** Two black and two white samples split only as black, black, white,
      white: black lies below white on every channel, so whichever channel
      is widest, the first half takes the blacks. */
  lemma {:induction false} BlackWhiteSplit(cs: seq<Rgb>)
    requires multiset(cs) == multiset([Rgb(0, 0, 0), Rgb(255, 255, 255), Rgb(0, 0, 0), Rgb(255, 255, 255)])
    requires MedianSplits(cs, 2)
    ensures |cs| == 4 && Uniform(cs, 0, 2) && Uniform(cs, 2, 4)
    ensures cs[0] == Rgb(0, 0, 0) && cs[2] == Rgb(255, 255, 255)
  {
    assert |cs| == |multiset(cs)| == 4;
    BlackWhiteOrdered(cs, CutAxis(cs));
  }

  /** Four samples with leaves of two are cut once, into two leaves of two. */
  lemma FourByTwo()
    ensures LeafRanges(0, 4, 2) == [(0, 2), (2, 4)]
  {
    assert LeafRanges(0, 2, 2) == [(0, 2)];
    assert LeafRanges(2, 4, 2) == [(2, 4)];
  }

  /** Samples [lo, hi) of colour all have the colour of sample lo. */
  ghost predicate Uniform(colour: seq<Rgb>, lo: nat, hi: nat)
  {
    lo < hi <= |colour| && forall i :: lo <= i < hi ==> colour[i] == colour[lo]
  }

  /** A leaf whose samples all have one colour gets that colour as its entry. */
  lemma {:induction false} UniformLeafMeans(p: seq<Rgb>, from: nat, colour: seq<Rgb>, rs: seq<(nat, nat)>)
    requires LeafMeans(p, from, colour, rs)
    requires forall k :: 0 <= k < |rs| ==> Uniform(colour, rs[k].0, rs[k].1)
    ensures |p| == from + |rs|
    ensures forall k :: 0 <= k < |rs| ==> rs[k].0 < |colour| && p[from + k] == colour[rs[k].0]
  {
    LeafMeansAt(p, from, colour, rs);
    forall k | 0 <= k < |rs|
      ensures p[from + k] == colour[rs[k].0]
    {
      MeanOfUniformRange(colour, rs[k].0, rs[k].1);
    }
  }

  /** The mean of a range of one colour is that colour. */
  lemma MeanOfUniformRange(colour: seq<Rgb>, lo: nat, hi: nat)
    requires Uniform(colour, lo, hi)
    ensures Mean(colour[lo..hi]) == colour[lo]
  {
    var b := colour[lo..hi];
    assert forall i :: 0 <= i < |b| ==> b[i] == colour[lo + i];
    MeanOfUniform(b, colour[lo]);
  }

  /** Four samples whose halves are each of one colour, cut into leaves of
      two, have one entry per half, in order, of that half's colour. */
  lemma {:induction false} TwoUniformLeaves(p: seq<Rgb>, cs: seq<Rgb>)
    requires |cs| == 4 && Uniform(cs, 0, 2) && Uniform(cs, 2, 4)
    requires LeafMeans(p, 0, cs, LeafRanges(0, |cs|, 2))
    ensures |p| == 2 && p[0] == cs[0] && p[1] == cs[2]
  {
    var rs := [(0, 2), (2, 4)];
    FourByTwo();
    UniformLeafMeans(p, 0, cs, rs);
    assert p[0 + 0] == cs[rs[0].0];
    assert p[0 + 1] == cs[rs[1].0];
  }

  /** Black, black, white, white cut into its two leaves of two has the
      entries black then white. */
  lemma {:induction false} BlackWhiteMeans(p: seq<Rgb>, cs: seq<Rgb>)
    requires |cs| == 4 && Uniform(cs, 0, 2) && Uniform(cs, 2, 4)
    requires cs[0] == Rgb(0, 0, 0) && cs[2] == Rgb(255, 255, 255)
    requires LeafMeans(p, 0, cs, LeafRanges(0, |cs|, 2))
    ensures p == [Rgb(0, 0, 0), Rgb(255, 255, 255)]
  {
    TwoUniformLeaves(p, cs);
    assert p == [p[0], p[1]];
  }

  /** Two black and two white samples whose first half lies at or below
      their second half on channel a are black, black, white, white. */
  lemma {:induction false} BlackWhiteOrdered(cs: seq<Rgb>, a: Axis)
    requires multiset(cs) == multiset([Rgb(0, 0, 0), Rgb(255, 255, 255), Rgb(0, 0, 0), Rgb(255, 255, 255)])
    requires |cs| == 4 && SplitOrderedAt(cs, 2, a)
    ensures forall i :: 0 <= i < 4 ==> cs[i] == if i < 2 then Rgb(0, 0, 0) else Rgb(255, 255, 255)
  {
    var black, white := Rgb(0, 0, 0), Rgb(255, 255, 255);
    assert Key(black, a) == 0 && Key(white, a) == 255;
    forall i | 0 <= i < 4
      ensures cs[i] == black || cs[i] == white
    {
      assert cs[i] in multiset(cs);
    }
    assert cs == [cs[0], cs[1], cs[2], cs[3]];
    assert multiset(cs)[white] == 2;
    assert multiset(cs)[white] == (if cs[0] == white then 1 else 0) + (if cs[1] == white then 1 else 0)
                                 + (if cs[2] == white then 1 else 0) + (if cs[3] == white then 1 else 0);
  }

  /** MedianCutAlgorithm(colour, palette, start, end, MaxElementCount, cursor):
      the bucket [start, end) ends up rearranged in place, and one palette
      entry per leaf is appended: the floor mean of the leaf's samples as
      they lie when the recursion is done, which also lies in every channel
      band that holds all samples of the bucket. */
  method MedianCut(colour: seq<Rgb>, start: nat, end: nat, maxCount: nat, palette: seq<Rgb>) returns (r: Result<Cut>)
    requires start <= end <= |colour|
    requires maxCount >= 1 || start == end
    decreases end - start
    ensures r.Ok? <==> start < end
    ensures r.Err? ==> r.error == EmptyBucket
    ensures r.Ok? ==> |r.value.palette| == |palette| + LeafCount(end - start, maxCount)
    ensures r.Ok? ==> palette <= r.value.palette
    ensures r.Ok? ==> Perm(colour, r.value.colour, start, end - 1)
    ensures r.Ok? ==> EntriesWithinBucket(r.value.palette, |palette|, colour, start, end)
    ensures r.Ok? ==> LeafMeans(r.value.palette, |palette|, r.value.colour, LeafRanges(start, end, maxCount))
    ensures r.Ok? ==> MedianSplits(r.value.colour[start..end], maxCount)
  {
    if end - start <= maxCount {
      if end == start {
        return Err(EmptyBucket);
      }
      LeafWithinBucket(colour, start, end, palette);
      var entry := Mean(colour[start..end]);
      assert LeafRanges(start, end, maxCount) == [(start, end)];
      assert LeafBuckets(colour, [(start, end)]) == [colour[start..end]];
      assert MeansOf([colour[start..end]]) == [entry];
      assert (palette + [entry])[|palette|..] == [entry];
      return Ok(Cut(colour, palette + [entry]));
    }
    var sorted := SortBucket(colour, start, end);
    var mid := start + (end - start) / 2;
    var left := MedianCut(sorted, start, mid, maxCount, palette);
    if left.Err? {
      return left;
    }
    var l := left.value;
    r := MedianCut(l.colour, mid, end, maxCount, l.palette);
    CountAfterSplit(|palette|, |l.palette|, |r.value.palette|, start, mid, end, maxCount);
    JoinHalves(colour, sorted, l.colour, r.value.colour, start, mid, end);
    SplitWithinBucket(colour, sorted, l.colour, palette, l.palette, r.value.palette, start, mid, end);
    SplitMeans(l.colour, r.value.colour, palette, l.palette, r.value.palette, start, mid, end, maxCount);
    SplitMedian(colour, sorted, l.colour, r.value.colour, start, mid, end, maxCount);
  }

  /** The leaf entries of the left half survive the cut of the right half,
      which moves no sample left of mid and appends after them. */
  lemma SplitMeans(lc: seq<Rgb>, rc: seq<Rgb>, p0: seq<Rgb>, p1: seq<Rgb>, p2: seq<Rgb>,
                   start: nat, mid: nat, end: nat, maxCount: nat)
    requires maxCount >= 1 && end - start > maxCount && mid == start + (end - start) / 2
    requires Perm(lc, rc, mid, end - 1) && p1 <= p2
    requires LeafMeans(p1, |p0|, lc, LeafRanges(start, mid, maxCount))
    requires LeafMeans(p2, |p1|, rc, LeafRanges(mid, end, maxCount))
    ensures LeafMeans(p2, |p0|, rc, LeafRanges(start, end, maxCount))
  {
    LeafRangesSplit(start, mid, end, maxCount);
    LeafRangesWithin(start, mid, maxCount);
    HalvesMeans(lc, rc, p0, p1, p2, LeafRanges(start, mid, maxCount), LeafRanges(mid, end, maxCount), mid, end - 1);
  }

  /** A bucket too large for one leaf has the leaves of its two halves. */
  lemma LeafRangesSplit(start: nat, mid: nat, end: nat, maxCount: nat)
    requires maxCount >= 1 && end - start > maxCount && mid == start + (end - start) / 2
    ensures LeafRanges(start, end, maxCount) == LeafRanges(start, mid, maxCount) + LeafRanges(mid, end, maxCount)
  {
  }

  /** Leaf entries of both halves join when the right half's cut keeps the
      samples of the left half. */
  lemma HalvesMeans(lc: seq<Rgb>, rc: seq<Rgb>, p0: seq<Rgb>, p1: seq<Rgb>, p2: seq<Rgb>,
                    left: seq<(nat, nat)>, right: seq<(nat, nat)>, mid: nat, hi: int)
    requires forall k :: 0 <= k < |left| ==> left[k].1 <= mid
    requires Perm(lc, rc, mid, hi) && p1 <= p2
    requires LeafMeans(p1, |p0|, lc, left) && LeafMeans(p2, |p1|, rc, right)
    ensures LeafMeans(p2, |p0|, rc, left + right)
  {
    LeafBucketsKept(lc, rc, left, mid);
    LeafBucketsAppend(rc, left, right);
    MeansOfAppend(LeafBuckets(rc, left), LeafBuckets(rc, right));
    assert p2[|p0|..] == p1[|p0|..] + p2[|p1|..];
  }

  /** The mean of a leaf lies in every band that holds the leaf. */
  lemma LeafWithinBucket(colour: seq<Rgb>, start: nat, end: nat, palette: seq<Rgb>)
    requires start < end <= |colour|
    ensures EntriesWithinBucket(palette + [Mean(colour[start..end])], |palette|, colour, start, end)
  {
    var s := colour[start..end];
    var p := palette + [Mean(s)];
    forall col, low, high | InBand(colour, col, start, end - 1, low, high)
      ensures EntriesInBand(p, |palette|, col, low, high)
    {
      forall i | 0 <= i < |s|
        ensures low <= Key(s[i], col) <= high
      {
        assert s[i] == colour[start + i];
      }
      MeanInBand(s, col, low, high);
    }
  }

  /** The entries of both halves of a split lie in every band that holds the
      whole bucket: sorting and cutting the left half keeps the right half's
      samples where they were. */
  lemma SplitWithinBucket(colour: seq<Rgb>, sorted: seq<Rgb>, lc: seq<Rgb>,
                          p0: seq<Rgb>, p1: seq<Rgb>, p2: seq<Rgb>, start: int, mid: int, end: int)
    requires 0 <= start <= mid <= end <= |colour|
    requires Perm(colour, sorted, start, end - 1) && Perm(sorted, lc, start, mid - 1)
    requires p0 <= p1 <= p2
    requires EntriesWithinBucket(p1, |p0|, sorted, start, mid)
    requires EntriesWithinBucket(p2, |p1|, lc, mid, end)
    ensures EntriesWithinBucket(p2, |p0|, colour, start, end)
  {
    forall col, low, high | InBand(colour, col, start, end - 1, low, high)
      ensures EntriesInBand(p2, |p0|, col, low, high)
    {
      PermKeepsBand(colour, sorted, col, start, end - 1, low, high);
      assert InBand(sorted, col, start, mid - 1, low, high);
      assert InBand(lc, col, mid, end - 1, low, high) by {
        forall i | mid <= i < end
          ensures lc[i] == sorted[i]
        {
        }
      }
      assert EntriesInBand(p1, |p0|, col, low, high);
      assert EntriesInBand(p2, |p1|, col, low, high);
      forall k | |p0| <= k < |p2|
        ensures low <= Key(p2[k], col) <= high
      {
        if k < |p1| {
          assert p2[k] == p1[k];
        }
      }
    }
  }

  /** The three rearrangements of one split compose to one of [start, end). */
  lemma JoinHalves(a: seq<Rgb>, b: seq<Rgb>, c: seq<Rgb>, d: seq<Rgb>, start: int, mid: int, end: int)
    requires start <= mid <= end
    requires Perm(a, b, start, end - 1) && Perm(b, c, start, mid - 1) && Perm(c, d, mid, end - 1)
    ensures Perm(a, d, start, end - 1)
  {
  }

  /** With leaf size maxCount, a bucket of at most 2^j * maxCount samples
      reaches at most 2^j leaves. */
  lemma {:induction false} LeafCountAtMost(len: nat, maxCount: nat, j: nat)
    requires maxCount >= 1 && len <= Pow2(j) * maxCount
    ensures LeafCount(len, maxCount) <= Pow2(j)
  {
    if len > maxCount {
      assert j > 0;
      var half := Pow2(j - 1) * maxCount;
      assert Pow2(j) * maxCount == 2 * half;
      LeafCountAtMost(len / 2, maxCount, j - 1);
      LeafCountAtMost(len - len / 2, maxCount, j - 1);
    }
  }

  /** A bucket of exactly 2^j * maxCount samples reaches exactly 2^j leaves. */
  lemma {:induction false} LeafCountExact(maxCount: nat, j: nat)
    requires maxCount >= 1
    ensures LeafCount(Pow2(j) * maxCount, maxCount) == Pow2(j)
  {
    if j > 0 {
      var half := Pow2(j - 1) * maxCount;
      assert Pow2(j) * maxCount == 2 * half;
      assert half >= maxCount by { AtLeastDivisor(Pow2(j - 1), maxCount); }
      LeafCountExact(maxCount, j - 1);
    }
  }

  // ---------------------------------------------------------------------------
  // The extents as the program computes them

  /** The Uint32 difference x - y assigned to an int: wrapped modulo 2^32,
      then read as a two's-complement 32-bit value. */
  function WrappedDifference(x: word, y: word): (d: int)
    ensures -0x8000_0000 <= d < 0x8000_0000
    ensures (d - (x - y)) % WordModulus == 0
  {
    var u := (x - y) % WordModulus;
    if u < 0x8000_0000 then u else u - WordModulus
  }

  /** A difference that fits in 31 bits is not changed by the wrap. */
  lemma WrappedSmall(x: word, y: word)
    requires 0 <= x - y < 0x8000_0000
    ensures WrappedDifference(x, y) == x - y
  {
  }

  /** longest_axisRGB reads red[end - 1] - red[start] from the Uint32
      scratch array that sortColourRGB filled: the bucket's values sorted
      into entries [0, end - start) and whatever malloc returned in the
      remaining start entries. */
  function ExtentAsWritten(sortedKeys: seq<word>, junk: seq<word>, start: nat, end: nat): (d: int)
    requires start < end && |sortedKeys| == end - start && |junk| == start
    ensures -0x8000_0000 <= d < 0x8000_0000
  {
    var scratch := sortedKeys + junk;
    WrappedDifference(scratch[end - 1], scratch[start])
  }

  /** The last of the sorted keys of a bucket is their maximum. */
  lemma SortedLastIsMax(sortedKeys: seq<int>, ks: seq<int>)
    requires |ks| >= 1 && |sortedKeys| == |ks|
    requires multiset(sortedKeys) == multiset(ks)
    requires forall i, j :: 0 <= i < j < |sortedKeys| ==> sortedKeys[i] <= sortedKeys[j]
    ensures sortedKeys[|ks| - 1] == Max(ks)
  {
    var n := |ks|;
    var iMax :| 0 <= iMax < n && ks[iMax] == Max(ks);
    assert ks[iMax] in multiset(sortedKeys);
    var a :| 0 <= a < n && sortedKeys[a] == ks[iMax];
    assert sortedKeys[n - 1] in multiset(ks);
    var c :| 0 <= c < n && ks[c] == sortedKeys[n - 1];
  }

  /** The first of the sorted keys of a bucket is their minimum. */
  lemma SortedFirstIsMin(sortedKeys: seq<int>, ks: seq<int>)
    requires |ks| >= 1 && |sortedKeys| == |ks|
    requires multiset(sortedKeys) == multiset(ks)
    requires forall i, j :: 0 <= i < j < |sortedKeys| ==> sortedKeys[i] <= sortedKeys[j]
    ensures sortedKeys[0] == Min(ks)
  {
    var n := |ks|;
    var iMin :| 0 <= iMin < n && ks[iMin] == Min(ks);
    assert ks[iMin] in multiset(sortedKeys);
    var b :| 0 <= b < n && sortedKeys[b] == ks[iMin];
    assert sortedKeys[0] in multiset(ks);
    var d :| 0 <= d < n && ks[d] == sortedKeys[0];
  }

  /** For the first bucket (start = 0) the scratch read is the true extent. */
  lemma ExtentAsWrittenAtZero(s: seq<Rgb>, col: Axis, sortedKeys: seq<word>)
    requires |s| >= 1 && |sortedKeys| == |s|
    requires multiset(sortedKeys) == multiset(KeysOf(s, col))
    requires forall i, j :: 0 <= i < j < |sortedKeys| ==> sortedKeys[i] <= sortedKeys[j]
    ensures ExtentAsWritten(sortedKeys, [], 0, |s|) == Extent(s, col)
  {
    var ks := KeysOf(s, col);
    var n := |s|;
    SortedLastIsMax(sortedKeys, ks);
    SortedFirstIsMin(sortedKeys, ks);
    assert sortedKeys[n - 1] - sortedKeys[0] == Extent(s, col);
    WrappedSmall(sortedKeys[n - 1], sortedKeys[0]);
    assert (sortedKeys + [])[n - 1] == sortedKeys[n - 1] && (sortedKeys + [])[0] == sortedKeys[0];
  }

  /** A right-hand bucket [2, 4) whose red values are 0 and 200: the program
      reads two never-written scratch entries (zero here) and sees extent 0
      on every channel, so it cuts along green instead of red. */
  lemma ExtentAsWrittenMissesSpread()
    ensures var s := [Rgb(0, 0, 0), Rgb(200, 0, 0)];
            && Extent(s, RedAxis) == 200
            && ExtentAsWritten([0, 200], [0, 0], 2, 4) == 0
            && CutAxis(s) == RedAxis
            && LongestAxis(ExtentAsWritten([0, 200], [0, 0], 2, 4),
                           ExtentAsWritten([0, 0], [0, 0], 2, 4),
                           ExtentAsWritten([0, 0], [0, 0], 2, 4)) == GreenAxis
  {
    var s := [Rgb(0, 0, 0), Rgb(200, 0, 0)];
    assert KeysOf(s, RedAxis) == [0, 200];
    assert KeysOf(s, GreenAxis) == [0, 0];
    assert KeysOf(s, BlueAxis) == [0, 0];
    assert [0, 200][..1] == [0];
    assert [0, 0][..1] == [0];
  }
}
