/** manual_qsort: the in-place quicksort of the colour samples on one channel.

    The samples are a sequence of Rgb triples.  The sort works on the closed
    index range [start, end] and orders it by one channel ("column").  The
    partition is the program's own two-pointer exchange, modelled step by
    step: which of several samples with the same key ends up where decides
    the median split of the quantizer, so "some sorted permutation" would not
    be a faithful model. */
module ManualSort {
  import opened Pixels

  /** The channel a bucket is cut along: column 0, 1 or 2 of a sample. */
  datatype Axis = RedAxis | GreenAxis | BlueAxis

  function Key(c: Rgb, col: Axis): byte
  {
    match col
    case RedAxis => c.r
    case GreenAxis => c.g
    case BlueAxis => c.b
  }

  function Swap<T>(a: seq<T>, i: nat, j: nat): (s: seq<T>)
    requires i < |a| && j < |a|
    ensures |s| == |a| && s[i] == a[j] && s[j] == a[i]
    ensures forall k :: 0 <= k < |a| && k != i && k != j ==> s[k] == a[k]
    ensures multiset(s) == multiset(a)
  {
    a[i := a[j]][j := a[i]]
  }

  /** b is a rearrangement of a that only moves samples inside [lo, hi]. */
  ghost predicate Perm(a: seq<Rgb>, b: seq<Rgb>, lo: int, hi: int)
  {
    && |a| == |b|
    && multiset(a) == multiset(b)
    && forall i :: 0 <= i < |a| && !(lo <= i <= hi) ==> a[i] == b[i]
  }

  /** The range [lo, hi] of a is non-decreasing on channel col. */
  ghost predicate SortedOn(a: seq<Rgb>, col: Axis, lo: int, hi: int)
  {
    forall i, j :: 0 <= lo <= i < j <= hi < |a| ==> Key(a[i], col) <= Key(a[j], col)
  }

  /** Every sample of a in [lo, hi] has its col channel in [low, high]. */
  ghost predicate InBand(a: seq<Rgb>, col: Axis, lo: int, hi: int, low: int, high: int)
  {
    forall i :: 0 <= lo <= i <= hi < |a| ==> low <= Key(a[i], col) <= high
  }

  /** The inner `while (a[l][column] < pivot ...) l++` scan: the first index
      from l on whose key is not below the pivot (end + 1 if there is none). */
  function ScanUp(a: seq<Rgb>, col: Axis, pivot: int, l: int, end: int): (k: int)
    requires 0 <= l <= end + 1 <= |a|
    decreases end + 1 - l
    ensures l <= k <= end + 1
    ensures forall i :: l <= i < k ==> Key(a[i], col) < pivot
    ensures k <= end ==> Key(a[k], col) >= pivot
  {
    if l <= end && Key(a[l], col) < pivot then ScanUp(a, col, pivot, l + 1, end) else l
  }

  /** The inner `while (a[r][column] > pivot ...) r--` scan: the last index
      up to r whose key is not above the pivot (start - 1 if there is none). */
  function ScanDown(a: seq<Rgb>, col: Axis, pivot: int, r: int, start: int): (k: int)
    requires 0 <= start && start - 1 <= r < |a|
    decreases r - start + 1
    ensures start - 1 <= k <= r
    ensures forall i :: k < i <= r ==> Key(a[i], col) > pivot
    ensures k >= start ==> Key(a[k], col) <= pivot
  {
    if r >= start && Key(a[r], col) > pivot then ScanDown(a, col, pivot, r - 1, start) else r
  }

  /** State of the partition loop when it stops. */
  datatype Split = Split(a: seq<Rgb>, l: int, r: int)

  /** The `while (l < r)` exchange loop.  On entry either nothing has been
      scanned yet and the pivot sample lies somewhere in [start, end], or a
      swap has happened and l - 1, r + 1 hold samples on the right sides of
      the pivot; in both cases each scan has a sample that stops it inside
      the bucket, so the unguarded reads of the program never leave it. */
  function Partition(a: seq<Rgb>, col: Axis, pivot: int, start: int, end: int, l: int, r: int): (s: Split)
    requires 0 <= start < end < |a|
    requires start <= l <= end + 1 && start - 1 <= r <= end
    requires forall i :: start <= i < l ==> Key(a[i], col) <= pivot
    requires forall i :: r < i <= end ==> Key(a[i], col) >= pivot
    requires || (start < l && r < end)
             || (l == start && r == end && exists m :: start <= m <= end && Key(a[m], col) == pivot)
    decreases r - l + 2
    ensures Perm(a, s.a, start, end)
    ensures start < s.l <= end + 1 && start - 1 <= s.r < end && s.r <= s.l
    ensures forall i :: start <= i < s.l ==> Key(s.a[i], col) <= pivot
    ensures forall i :: s.r < i <= end ==> Key(s.a[i], col) >= pivot
  {
    if l < r then
      var l1 := ScanUp(a, col, pivot, l, end);
      var r1 := ScanDown(a, col, pivot, r, start);
      ScansStayInBucket(a, col, pivot, start, end, l, r);
      if l1 <= r1 then
        var a' := Swap(a, l1, r1);
        SwapKeepsSides(a, col, pivot, start, end, l, r, l1, r1);
        var s := Partition(a', col, pivot, start, end, l1 + 1, r1 - 1);
        PermTrans(a, a', s.a, start, end);
        s
      else
        Split(a, l1, r1)
    else
      Split(a, l, r)
  }

  /** After the two scans and the exchange, [start, l1] is at most the pivot
      and [r1, end] at least the pivot. */
  lemma SwapKeepsSides(a: seq<Rgb>, col: Axis, pivot: int, start: int, end: int, l: int, r: int, l1: int, r1: int)
    requires 0 <= start <= end < |a|
    requires start <= l < r <= end
    requires forall i :: start <= i < l ==> Key(a[i], col) <= pivot
    requires forall i :: r < i <= end ==> Key(a[i], col) >= pivot
    requires l1 == ScanUp(a, col, pivot, l, end) && r1 == ScanDown(a, col, pivot, r, start)
    requires start <= l1 <= r1 <= end
    ensures forall i :: start <= i < l1 + 1 ==> Key(Swap(a, l1, r1)[i], col) <= pivot
    ensures forall i :: r1 - 1 < i <= end ==> Key(Swap(a, l1, r1)[i], col) >= pivot
    ensures Perm(a, Swap(a, l1, r1), start, end)
  {
  }

  lemma PermTrans(a: seq<Rgb>, b: seq<Rgb>, c: seq<Rgb>, lo: int, hi: int)
    requires Perm(a, b, lo, hi) && Perm(b, c, lo, hi)
    ensures Perm(a, c, lo, hi)
  {
  }

  /** Each scan of the exchange loop stops inside [start, end]; on the first
      round both stop on either side of the pivot sample, so a swap happens. */
  lemma ScansStayInBucket(a: seq<Rgb>, col: Axis, pivot: int, start: int, end: int, l: int, r: int)
    requires 0 <= start <= end < |a|
    requires start <= l < r <= end
    requires forall i :: start <= i < l ==> Key(a[i], col) <= pivot
    requires forall i :: r < i <= end ==> Key(a[i], col) >= pivot
    requires || (start < l && r < end)
             || (l == start && r == end && exists m :: start <= m <= end && Key(a[m], col) == pivot)
    ensures start <= ScanUp(a, col, pivot, l, end) <= end
    ensures start <= ScanDown(a, col, pivot, r, start) <= end
    ensures l == start ==> ScanUp(a, col, pivot, l, end) <= ScanDown(a, col, pivot, r, start)
  {
    var l1, r1 := ScanUp(a, col, pivot, l, end), ScanDown(a, col, pivot, r, start);
    if start < l && r < end {
      assert Key(a[r + 1], col) >= pivot;
      assert Key(a[l - 1], col) <= pivot;
    } else {
      var m :| start <= m <= end && Key(a[m], col) == pivot;
      assert l1 <= m <= r1;
    }
  }

  /** manual_qsort(a, start, end, column): sorts the closed range [start, end]
      on channel col and leaves every other sample where it was. */
  function QSort(a: seq<Rgb>, col: Axis, start: int, end: int): (s: seq<Rgb>)
    requires 0 <= start <= end + 1 <= |a|
    decreases end - start + 1
    ensures Perm(a, s, start, end)
    ensures SortedOn(s, col, start, end)
  {
    if start < end then
      var pivot := Key(a[start + (end - start) / 2], col);
      var p := Partition(a, col, pivot, start, end, start, end);
      var left := QSort(p.a, col, start, p.r);
      var right := QSort(left, col, p.l, end);
      JoinSorted(p.a, left, right, col, pivot, start, end, p.l, p.r);
      right
    else
      a
  }

  /** The samples of [lo, hi] as a sub-sequence are the same multiset after a Perm. */
  lemma {:induction false} PermRange(a: seq<Rgb>, b: seq<Rgb>, lo: int, hi: int)
    requires 0 <= lo <= hi + 1 <= |a|
    requires Perm(a, b, lo, hi)
    ensures multiset(a[lo..hi + 1]) == multiset(b[lo..hi + 1])
  {
    assert a == a[..lo] + a[lo..hi + 1] + a[hi + 1..];
    assert b == b[..lo] + b[lo..hi + 1] + b[hi + 1..];
    assert a[..lo] == b[..lo];
    assert a[hi + 1..] == b[hi + 1..];
    assert multiset(a) == multiset(a[..lo]) + multiset(a[hi + 1..]) + multiset(a[lo..hi + 1]);
    assert multiset(b) == multiset(a[..lo]) + multiset(a[hi + 1..]) + multiset(b[lo..hi + 1]);
    MultisetCancel(multiset(a[lo..hi + 1]), multiset(b[lo..hi + 1]), multiset(a[..lo]) + multiset(a[hi + 1..]));
  }

  lemma MultisetCancel<T>(x: multiset<T>, y: multiset<T>, z: multiset<T>)
    requires z + x == z + y
    ensures x == y
  {
    forall e
      ensures x[e] == y[e]
    {
      assert (z + x)[e] == z[e] + x[e];
      assert (z + y)[e] == z[e] + y[e];
    }
  }

  /** Rearranging [lo, hi] keeps every band that all its samples lie in. */
  lemma {:induction false} PermKeepsBand(a: seq<Rgb>, b: seq<Rgb>, col: Axis, lo: int, hi: int, low: int, high: int)
    requires 0 <= lo <= hi + 1 <= |a|
    requires Perm(a, b, lo, hi)
    requires InBand(a, col, lo, hi, low, high)
    ensures InBand(b, col, lo, hi, low, high)
  {
    PermRange(a, b, lo, hi);
    forall i | lo <= i <= hi
      ensures low <= Key(b[i], col) <= high
    {
      assert b[i] == b[lo..hi + 1][i - lo];
      var k := SameMultisetMember(a[lo..hi + 1], b[lo..hi + 1], i - lo);
      assert a[lo + k] == b[i];
    }
  }

  /** An element of t is an element of any s with the same multiset. */
  lemma {:induction false} SameMultisetMember(s: seq<Rgb>, t: seq<Rgb>, i: int) returns (k: int)
    requires multiset(s) == multiset(t) && 0 <= i < |t|
    ensures 0 <= k < |s| && s[k] == t[i]
  {
    assert t[i] in multiset(t);
    assert t[i] in s;
    k :| 0 <= k < |s| && s[k] == t[i];
  }

  /** If all but the last of s are at most the pivot and t is s sorted, then
      all but the last of t are at most the pivot too: an element above the
      pivot can only be s's last one, and sorting moves it to the end. */
  lemma {:induction false} SortedKeepsPrefixBound(s: seq<Rgb>, t: seq<Rgb>, col: Axis, pivot: int)
    requires |s| == |t| >= 1
    requires multiset(s) == multiset(t)
    requires forall i :: 0 <= i < |s| - 1 ==> Key(s[i], col) <= pivot
    requires forall i, j :: 0 <= i < j < |t| ==> Key(t[i], col) <= Key(t[j], col)
    ensures forall i :: 0 <= i < |t| - 1 ==> Key(t[i], col) <= pivot
  {
    var n := |s|;
    var x, y := s[n - 1], t[n - 1];
    if Key(x, col) <= pivot {
      forall i | 0 <= i < n - 1
        ensures Key(t[i], col) <= pivot
      {
        var k := SameMultisetMember(s, t, i);
      }
    } else {
      var m := SameMultisetMember(t, s, n - 1);
      assert Key(y, col) >= Key(x, col) by {
        if m < n - 1 {
          assert Key(t[m], col) <= Key(t[n - 1], col);
        }
      }
      var k := SameMultisetMember(s, t, n - 1);
      assert k == n - 1;
      var s', t' := s[..n - 1], t[..n - 1];
      assert s == s' + [x];
      assert t == t' + [x];
      assert multiset(s) == multiset{x} + multiset(s');
      assert multiset(t) == multiset{x} + multiset(t');
      MultisetCancel(multiset(s'), multiset(t'), multiset{x});
      forall i | 0 <= i < n - 1
        ensures Key(t[i], col) <= pivot
      {
        assert t[i] == t'[i];
        var j := SameMultisetMember(s', t', i);
        assert s[j] == t[i];
      }
    }
  }

  /** After the partition and both recursive sorts, the whole range is sorted.
      The two recursive ranges [start, r] and [l, end] may share index l = r,
      whose sample was never scanned. */
  lemma {:induction false} JoinSorted(a1: seq<Rgb>, a2: seq<Rgb>, a3: seq<Rgb>, col: Axis, pivot: int,
                                      start: int, end: int, l: int, r: int)
    requires 0 <= start <= end < |a1|
    requires start < l <= end + 1 && start - 1 <= r < end && r <= l
    requires forall i :: start <= i < l ==> Key(a1[i], col) <= pivot
    requires forall i :: r < i <= end ==> Key(a1[i], col) >= pivot
    requires Perm(a1, a2, start, r) && SortedOn(a2, col, start, r)
    requires Perm(a2, a3, l, end) && SortedOn(a3, col, l, end)
    ensures SortedOn(a3, col, start, end)
  {
    // The left part of a2 stays at or below the pivot.
    if r < l {
      PermKeepsBand(a1, a2, col, start, r, 0, pivot);
    } else {
      var s, t := a1[start..l + 1], a2[start..l + 1];
      PermRange(a1, a2, start, l);
      SortedKeepsPrefixBound(s, t, col, pivot);
      forall i | start <= i < l
        ensures Key(a2[i], col) <= pivot
      {
        assert a2[i] == t[i - start];
      }
    }
    assert forall i :: start <= i < l ==> Key(a2[i], col) <= pivot;
    assert forall i :: r < i <= end ==> a2[i] == a1[i];
    forall i, j | start <= i < j <= end
      ensures Key(a3[i], col) <= Key(a3[j], col)
    {
      if l <= i {
      } else if j < l {
        assert a3[i] == a2[i] && a3[j] == a2[j];
      } else {
        assert a3[i] == a2[i];
        var v := Key(a2[i], col);
        forall k | l <= k <= end
          ensures v <= Key(a2[k], col) <= 255
        {
          if k == r {
            assert i < k;
          }
        }
        PermKeepsBand(a2, a3, col, l, end, v, 255);
      }
    }
  }
}
