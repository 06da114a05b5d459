/**
 * The despike filter applied to the raw V3 series before it is written:
 * `np.median` written out over reals, and the Hampel filter, which replaces a
 * sample by the median of its window when it lies further from that median
 * than `nSigmas * 1.4826 * MAD` (MAD being the median absolute deviation of
 * the window), and leaves it alone when the window's MAD is zero.
 */
module Despike {
  import Sorting

  /** The constant that scales a median absolute deviation to a standard deviation for normal data. */
  const MadScale: real := 1.4826

  predicate RealLe(a: real, b: real)
  {
    a <= b
  }

  lemma RealLeIsTotalPreorder()
    ensures Sorting.TotalPreorder(RealLe)
  {
  }

  /** `np.median`: the middle of the sorted values, or the mean of the two middle ones for an even count. */
  function Median(s: seq<real>): real
    requires |s| > 0
  {
    var t := Sorting.SortBy(s, RealLe);
    var n := |t|;
    if n % 2 == 1 then t[n / 2] else (t[n / 2 - 1] + t[n / 2]) / 2.0
  }

  /** Every element of a sorted permutation of `s` lies between its first and last element, which are elements of `s`. */
  lemma SortedExtremes(s: seq<real>, k: nat)
    requires k < |s|
    ensures var t := Sorting.SortBy(s, RealLe);
      && t[0] <= t[k] <= t[|t| - 1]
      && t[0] in multiset(s) && t[|t| - 1] in multiset(s)
  {
    var t := Sorting.SortBy(s, RealLe);
    RealLeIsTotalPreorder();
    Sorting.SortBySorted(s, RealLe);
    Sorting.SortByPermutation(s, RealLe);
    assert RealLe(t[0], t[k]) || k == 0;
    assert RealLe(t[k], t[|t| - 1]) || k == |t| - 1;
    assert t[0] in multiset(t) && t[|t| - 1] in multiset(t);
  }

  /**
   * The median lies between the least and the greatest value: some element
   * is at most the median and some element is at least the median; with an
   * odd count the median is one of the values.
   */
  lemma MedianBetweenExtremes(s: seq<real>)
    requires |s| > 0
    ensures exists k :: 0 <= k < |s| && s[k] <= Median(s)
    ensures exists k :: 0 <= k < |s| && Median(s) <= s[k]
    ensures |s| % 2 == 1 ==> Median(s) in s
  {
    var t := Sorting.SortBy(s, RealLe);
    MedianBounds(s);
    SortedExtremes(s, 0);
    assert t[0] in s && t[|t| - 1] in s;
    if |s| % 2 == 1 {
      MedianOfOddIsElement(s);
    }
  }

  /** The median lies between the first and the last element of the sorted values. */
  lemma MedianBounds(s: seq<real>)
    requires |s| > 0
    ensures var t := Sorting.SortBy(s, RealLe); t[0] <= Median(s) <= t[|t| - 1]
  {
    var n := |s|;
    SortedExtremes(s, n / 2);
    SortedExtremes(s, if n % 2 == 1 then n / 2 else n / 2 - 1);
  }

  /** With an odd count the median is the middle sorted value, so one of the values. */
  lemma MedianOfOddIsElement(s: seq<real>)
    requires |s| % 2 == 1
    ensures Median(s) in s
  {
    var t := Sorting.SortBy(s, RealLe);
    Sorting.SortByPermutation(s, RealLe);
    assert t[|t| / 2] in multiset(t);
  }

  /** A series whose values are all the same has that value as its median. */
  lemma MedianOfConstant(s: seq<real>, c: real)
    requires |s| > 0 && forall k :: 0 <= k < |s| ==> s[k] == c
    ensures Median(s) == c
  {
    MedianBetweenExtremes(s);
  }

  /** The first index of the window around `i`, clipped at the start of the series. */
  function WindowStart(i: nat, half: nat): nat
  {
    if i >= half then i - half else 0
  }

  /** One past the last index of the window around `i`, clipped at the end of a series of length `n`. */
  function WindowEnd(n: nat, i: nat, half: nat): nat
  {
    if i + half + 1 <= n then i + half + 1 else n
  }

  /** The window of the original series centred on `i`: `vals[max(0, i - half) : min(n, i + half + 1)]`. */
  function Window(vals: seq<real>, i: nat, half: nat): (w: seq<real>)
    requires i < |vals|
    ensures |w| > 0
  {
    vals[WindowStart(i, half)..WindowEnd(|vals|, i, half)]
  }

  function Abs(x: real): real
  {
    if x < 0.0 then -x else x
  }

  /** The absolute deviations of `w` from `med`, element by element. */
  function Deviations(w: seq<real>, med: real): (d: seq<real>)
    ensures |d| == |w| && forall k :: 0 <= k < |w| ==> d[k] == Abs(w[k] - med)
  {
    seq(|w|, k requires 0 <= k < |w| => Abs(w[k] - med))
  }

  /** The median absolute deviation of a window from its median. */
  function Mad(w: seq<real>): real
    requires |w| > 0
  {
    Median(Deviations(w, Median(w)))
  }

  /** A deviation is never negative, and so neither is the MAD. */
  lemma MadNonNegative(w: seq<real>)
    requires |w| > 0
    ensures Mad(w) >= 0.0
  {
    MedianBetweenExtremes(Deviations(w, Median(w)));
  }

  /** Sample `i` lies further from its window's median than the threshold (never so for a zero MAD). */
  predicate IsOutlier(vals: seq<real>, i: nat, half: nat, nSigmas: real)
    requires i < |vals|
  {
    var w := Window(vals, i, half);
    var mad := Mad(w);
    mad != 0.0 && Abs(vals[i] - Median(w)) > Threshold(nSigmas, mad)
  }

  /** How far from the median a sample may lie before it counts as a spike. */
  function Threshold(nSigmas: real, mad: real): real
  {
    nSigmas * MadScale * mad
  }

  /** The filtered value of sample `i`: its window's median for an outlier, the sample itself otherwise. */
  function HampelAt(vals: seq<real>, i: nat, half: nat, nSigmas: real): real
    requires i < |vals|
  {
    if IsOutlier(vals, i, half, nSigmas) then Median(Window(vals, i, half)) else vals[i]
  }

  /** The filtered series, every window taken from the unfiltered input. */
  function Hampel(vals: seq<real>, half: nat, nSigmas: real): (r: seq<real>)
    ensures |r| == |vals|
  {
    seq(|vals|, i requires 0 <= i < |vals| => HampelAt(vals, i, half, nSigmas))
  }

  /** What one iteration of the filter loop computes is the filtered value of sample `i`. */
  lemma HampelStep(vals: seq<real>, i: nat, half: nat, nSigmas: real, w: seq<real>, med: real, mad: real)
    requires i < |vals| && w == vals[WindowStart(i, half)..WindowEnd(|vals|, i, half)]
    requires med == Median(w) && mad == Median(Deviations(w, med))
    ensures HampelAt(vals, i, half, nSigmas)
            == if mad != 0.0 && Abs(vals[i] - med) > Threshold(nSigmas, mad) then med else vals[i]
  {
  }

  /**
   * `hampel_filter`: a copy of the series in which each outlier is replaced
   * by the median of its window, the windows always read from the input.
   */
  method HampelFilter(vals: seq<real>, windowSize: nat, nSigmas: real) returns (filtered: seq<real>)
    ensures |filtered| == |vals|
    ensures forall i :: 0 <= i < |vals| ==> filtered[i] == HampelAt(vals, i, windowSize / 2, nSigmas)
  {
    var n := |vals|;
    var half := windowSize / 2;
    filtered := vals;
    for i := 0 to n
      invariant |filtered| == n
      invariant forall k :: 0 <= k < i ==> filtered[k] == HampelAt(vals, k, half, nSigmas)
      invariant forall k :: i <= k < n ==> filtered[k] == vals[k]
    {
      var w := vals[WindowStart(i, half)..WindowEnd(n, i, half)];
      var med := Median(w);
      var mad := Median(Deviations(w, med));
      HampelStep(vals, i, half, nSigmas, w, med, mad);
      if mad == 0.0 {
        continue;
      }
      var threshold := Threshold(nSigmas, mad);
      if Abs(vals[i] - med) > threshold {
        filtered := filtered[i := med];
      }
    }
  }

  /** Each filtered value is either the original sample or the median of its window. */
  lemma HampelKeepsOrReplaces(vals: seq<real>, half: nat, nSigmas: real, i: nat)
    requires i < |vals|
    ensures var r := Hampel(vals, half, nSigmas);
      r[i] == vals[i] || r[i] == Median(Window(vals, i, half))
    ensures var r := Hampel(vals, half, nSigmas);
      r[i] != vals[i] ==> IsOutlier(vals, i, half, nSigmas)
  {
  }

  /** A window whose MAD is zero never has its sample replaced. */
  lemma HampelZeroMad(vals: seq<real>, half: nat, nSigmas: real, i: nat)
    requires i < |vals| && Mad(Window(vals, i, half)) == 0.0
    ensures Hampel(vals, half, nSigmas)[i] == vals[i]
  {
  }

  /** A series without outliers passes through the filter unchanged. */
  lemma HampelNoOutliers(vals: seq<real>, half: nat, nSigmas: real)
    requires forall i :: 0 <= i < |vals| ==> !IsOutlier(vals, i, half, nSigmas)
    ensures Hampel(vals, half, nSigmas) == vals
  {
  }

  /** A filtered value never leaves the range of the original values in its window. */
  lemma HampelWithinWindow(vals: seq<real>, half: nat, nSigmas: real, i: nat)
    requires i < |vals|
    ensures var r, lo, hi := Hampel(vals, half, nSigmas), WindowStart(i, half), WindowEnd(|vals|, i, half);
      && (exists k :: lo <= k < hi && vals[k] <= r[i])
      && (exists k :: lo <= k < hi && r[i] <= vals[k])
  {
    var r := Hampel(vals, half, nSigmas);
    if IsOutlier(vals, i, half, nSigmas) {
      assert r[i] == Median(Window(vals, i, half));
      MedianInWindow(vals, i, half);
    } else {
      assert r[i] == vals[i];
      assert WindowStart(i, half) <= i < WindowEnd(|vals|, i, half);
    }
  }

  /** The median of a window lies between two samples of that window. */
  lemma MedianInWindow(vals: seq<real>, i: nat, half: nat)
    requires i < |vals|
    ensures var m, lo, hi := Median(Window(vals, i, half)), WindowStart(i, half), WindowEnd(|vals|, i, half);
      && (exists k :: lo <= k < hi && vals[k] <= m)
      && (exists k :: lo <= k < hi && m <= vals[k])
  {
    var w := Window(vals, i, half);
    var lo := WindowStart(i, half);
    MedianBetweenExtremes(w);
    var a :| 0 <= a < |w| && w[a] <= Median(w);
    var b :| 0 <= b < |w| && Median(w) <= w[b];
    assert vals[lo + a] == w[a] && vals[lo + b] == w[b];
  }
}
