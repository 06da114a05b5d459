/**
 * The raw-to-force calibrator (`V3ForceCalibrator`): a table of calibration
 * points sorted by raw reading, and the conversion of one raw V3 reading to a
 * force in newtons against a session baseline.
 *
 * The whole raw axis of the table is translated so that its first point sits
 * on the baseline; the query is then either extrapolated on the line through
 * the two boundary points or interpolated piecewise-linearly with clamping,
 * as `np.interp` does. Values are reals, an idealisation of Python floats.
 */
module ForceCalibration {
  import opened Wrappers
  import Sorting

  /** One row of the calibration table: a known force and the mean raw V3 reading it produced. */
  datatype CalibrationPoint = CalibrationPoint(force: real, raw: real)

  /** The two conversion methods the constructor accepts. */
  datatype ConversionMethod = Piecewise | LinearFit

  /** The two `ValueError`s the constructor raises. */
  datatype CalibrationError = TooFewPoints | UnknownMethod

  /**
   * A constructed calibrator: the points sorted by raw value, the raw and
   * force columns of those points, the method and the extrapolation flag.
   */
  datatype Calibrator = Calibrator(
    points: seq<CalibrationPoint>,
    raw: seq<real>,
    force: seq<real>,
    conversion: ConversionMethod,
    allowExtrapolation: bool)
  {
    /** What construction establishes: at least two points, aligned columns, a non-decreasing raw axis. */
    ghost predicate Valid()
    {
      && |points| >= 2
      && |raw| == |points| && |force| == |points|
      && (forall i :: 0 <= i < |points| ==> raw[i] == points[i].raw && force[i] == points[i].force)
      && NonDecreasing(raw)
    }

    /** No two points share a raw value; the interior interpolation lemmas assume it. */
    ghost predicate StrictlyIncreasing()
    {
      Increasing(raw)
    }
  }

  /** Each value is at most the next one. */
  ghost predicate NonDecreasing(s: seq<real>)
  {
    |s| < 2 || (s[|s| - 2] <= s[|s| - 1] && NonDecreasing(s[..|s| - 1]))
  }

  /** Each value is below the next one. */
  ghost predicate Increasing(s: seq<real>)
  {
    |s| < 2 || (s[|s| - 2] < s[|s| - 1] && Increasing(s[..|s| - 1]))
  }

  lemma {:induction false} NonDecreasingPairwise(s: seq<real>, a: nat, b: nat)
    requires NonDecreasing(s) && a <= b < |s|
    ensures s[a] <= s[b]
  {
    var n := |s|;
    if a < b {
      var init := s[..n - 1];
      if b < n - 1 {
        NonDecreasingPairwise(init, a, b);
      } else {
        NonDecreasingPairwise(init, a, n - 2);
      }
    }
  }

  lemma {:induction false} IncreasingPairwise(s: seq<real>, a: nat, b: nat)
    requires Increasing(s) && a < b < |s|
    ensures s[a] < s[b]
  {
    var n := |s|;
    var init := s[..n - 1];
    if b < n - 1 {
      IncreasingPairwise(init, a, b);
    } else if a < n - 2 {
      IncreasingPairwise(init, a, n - 2);
    }
  }

  /** A sequence ordered pairwise is ordered step by step. */
  lemma {:induction false} PairwiseNonDecreasing(s: seq<real>)
    requires forall a, b :: 0 <= a < b < |s| ==> s[a] <= s[b]
    ensures NonDecreasing(s)
  {
    if |s| >= 2 {
      var init := s[..|s| - 1];
      assert forall a, b :: 0 <= a < b < |init| ==> init[a] <= init[b] by {
        forall a, b | 0 <= a < b < |init| ensures init[a] <= init[b] {
          assert init[a] == s[a] && init[b] == s[b];
        }
      }
      PairwiseNonDecreasing(init);
    }
  }

  /** The sort key of the constructor: order points by raw value. */
  predicate RawLe(p: CalibrationPoint, q: CalibrationPoint)
  {
    p.raw <= q.raw
  }

  lemma RawLeIsTotalPreorder()
    ensures Sorting.TotalPreorder(RawLe)
  {
  }

  function MethodNamed(name: string): (m: Option<ConversionMethod>)
    ensures m == Some(Piecewise) <==> name == "piecewise"
    ensures m == Some(LinearFit) <==> name == "linear_fit"
    ensures m == None <==> name != "piecewise" && name != "linear_fit"
  {
    if name == "piecewise" then Some(Piecewise)
    else if name == "linear_fit" then Some(LinearFit)
    else None
  }

  /**
   * The constructor, given the points the calibration file parsed into.
   * Fewer than two points is reported first; an unknown method name is only
   * reported after sorting, as in the constructor's order of checks.
   */
  method Create(points: seq<CalibrationPoint>, methodName: string, allowExtrapolation: bool)
    returns (r: Result<Calibrator, CalibrationError>)
    ensures |points| < 2 ==> r == Failure(TooFewPoints)
    ensures |points| >= 2 && methodName != "piecewise" && methodName != "linear_fit" ==> r == Failure(UnknownMethod)
    ensures r.Success? <==> |points| >= 2 && (methodName == "piecewise" || methodName == "linear_fit")
    ensures r.Success? ==> r.value.Valid()
    ensures r.Success? ==> r.value.conversion == (if methodName == "piecewise" then Piecewise else LinearFit)
    ensures r.Success? ==> r.value.allowExtrapolation == allowExtrapolation
    ensures r.Success? ==> r.value.points == Sorting.SortBy(points, RawLe)
    ensures r.Success? ==> multiset(r.value.points) == multiset(points)
    ensures r.Success? ==> forall p :: Sorting.Ties(r.value.points, RawLe, p) == Sorting.Ties(points, RawLe, p)
  {
    if |points| < 2 {
      return Failure(TooFewPoints);
    }
    var a := new CalibrationPoint[|points|](i requires 0 <= i < |points| => points[i]);
    assert a[..] == points;
    Sorting.SortInPlace(a, RawLe);
    var sorted := a[..];
    RawLeIsTotalPreorder();
    Sorting.SortBySorted(points, RawLe);
    Sorting.SortByPermutation(points, RawLe);
    forall p ensures Sorting.Ties(sorted, RawLe, p) == Sorting.Ties(points, RawLe, p) {
      Sorting.SortByStable(points, RawLe, p);
    }
    var raw := seq(|sorted|, i requires 0 <= i < |sorted| => sorted[i].raw);
    var force := seq(|sorted|, i requires 0 <= i < |sorted| => sorted[i].force);
    assert forall a, b :: 0 <= a < b < |raw| ==> raw[a] <= raw[b] by {
      forall a, b | 0 <= a < b < |raw| ensures raw[a] <= raw[b] {
        assert RawLe(sorted[a], sorted[b]);
      }
    }
    PairwiseNonDecreasing(raw);
    var m := MethodNamed(methodName);
    if m.None? {
      return Failure(UnknownMethod);
    }
    r := Success(Calibrator(sorted, raw, force, m.value, allowExtrapolation));
  }

  /** `s` with `d` added to every element. */
  function Translate(s: seq<real>, d: real): (r: seq<real>)
    ensures |r| == |s|
    ensures |s| > 0 ==> r[0] == s[0] + d && r[|r| - 1] == s[|s| - 1] + d
  {
    if s == [] then [] else Translate(s[..|s| - 1], d) + [s[|s| - 1] + d]
  }

  lemma {:induction false} TranslateIndex(s: seq<real>, d: real, k: nat)
    requires k < |s|
    ensures Translate(s, d)[k] == s[k] + d
  {
    if k < |s| - 1 {
      TranslateIndex(s[..|s| - 1], d, k);
    }
  }

  /** The raw axis moved so that its first point lies on `baseline`, with every gap kept. */
  function ShiftedAxis(raw: seq<real>, baseline: real): (r: seq<real>)
    requires |raw| > 0
    ensures |r| == |raw|
  {
    Translate(raw, baseline - raw[0])
  }

  lemma ShiftedAxisIndex(raw: seq<real>, baseline: real, k: nat)
    requires k < |raw|
    ensures ShiftedAxis(raw, baseline)[k] == baseline + (raw[k] - raw[0])
  {
    TranslateIndex(raw, baseline - raw[0], k);
  }

  /** A Python index into a sequence of length `n`, negative indices counting from the end. */
  function PyIndex(i: int, n: nat): (k: nat)
    requires 0 <= n + i && i < n
    ensures k < n
    ensures i >= 0 ==> k == i
    ensures i < 0 ==> k == n + i
  {
    if i < 0 then n + i else i
  }

  /** The slope of the line through (`x0`, `y0`) and (`x1`, `y1`). */
  function Slope(x0: real, y0: real, x1: real, y1: real): real
    requires x0 != x1
  {
    (y1 - y0) / (x1 - x0)
  }

  /** Following the slope from the first point for the full run reaches the second point. */
  lemma SlopeReachesEnd(x0: real, y0: real, x1: real, y1: real)
    requires x0 != x1
    ensures y0 + Slope(x0, y0, x1, y1) * (x1 - x0) == y1
  {
  }

  /** Moving both points of a line sideways by the same amount keeps its slope. */
  lemma SlopeSameRun(x0: real, y0: real, x1: real, y1: real, u0: real, u1: real)
    requires x0 != x1 && x1 - x0 == u1 - u0
    ensures Slope(x0, y0, x1, y1) == Slope(u0, y0, u1, y1)
  {
  }

  /**
   * The value at `x` of the line through points `i0` and `i1` of the
   * (`rawArr`, `force`) table; the force of point `i0` when the two raw
   * values coincide.
   */
  function ExtrapolateWithRaw(x: real, rawArr: seq<real>, force: seq<real>, i0: int, i1: int): real
    requires |rawArr| == |force|
    requires -|rawArr| <= i0 < |rawArr| && -|rawArr| <= i1 < |rawArr|
  {
    var x0, y0 := rawArr[PyIndex(i0, |rawArr|)], force[PyIndex(i0, |force|)];
    var x1, y1 := rawArr[PyIndex(i1, |rawArr|)], force[PyIndex(i1, |force|)];
    if x1 == x0 then y0
    else
      y0 + Slope(x0, y0, x1, y1) * (x - x0)
  }

  /** The same extrapolation on the calibrator's own, unshifted raw axis. */
  function Extrapolate(c: Calibrator, x: real, i0: int, i1: int): real
    requires c.Valid()
    requires -|c.raw| <= i0 < |c.raw| && -|c.raw| <= i1 < |c.raw|
  {
    ExtrapolateWithRaw(x, c.raw, c.force, i0, i1)
  }

  /** Two equal boundary raw values give the boundary force, whatever the query. */
  lemma ExtrapolateDegenerate(x: real, rawArr: seq<real>, force: seq<real>, i0: int, i1: int)
    requires |rawArr| == |force|
    requires -|rawArr| <= i0 < |rawArr| && -|rawArr| <= i1 < |rawArr|
    requires rawArr[PyIndex(i0, |rawArr|)] == rawArr[PyIndex(i1, |rawArr|)]
    ensures ExtrapolateWithRaw(x, rawArr, force, i0, i1) == force[PyIndex(i0, |force|)]
  {
  }

  /** The extrapolation line passes through both of its defining points. */
  lemma ExtrapolateThroughPoints(rawArr: seq<real>, force: seq<real>, i0: int, i1: int)
    requires |rawArr| == |force|
    requires -|rawArr| <= i0 < |rawArr| && -|rawArr| <= i1 < |rawArr|
    ensures ExtrapolateWithRaw(rawArr[PyIndex(i0, |rawArr|)], rawArr, force, i0, i1) == force[PyIndex(i0, |force|)]
    ensures rawArr[PyIndex(i0, |rawArr|)] != rawArr[PyIndex(i1, |rawArr|)] ==>
              ExtrapolateWithRaw(rawArr[PyIndex(i1, |rawArr|)], rawArr, force, i0, i1) == force[PyIndex(i1, |force|)]
  {
    var x0, y0 := rawArr[PyIndex(i0, |rawArr|)], force[PyIndex(i0, |force|)];
    var x1, y1 := rawArr[PyIndex(i1, |rawArr|)], force[PyIndex(i1, |force|)];
    if x1 != x0 {
      SlopeReachesEnd(x0, y0, x1, y1);
    }
  }

  /**
   * Extrapolating on the shifted axis is extrapolating on the table's own
   * axis at the query moved back by the offset; with the baseline at the
   * first raw value the two coincide.
   */
  lemma ShiftedExtrapolation(c: Calibrator, x: real, baseline: real, i0: int, i1: int)
    requires c.Valid()
    requires -|c.raw| <= i0 < |c.raw| && -|c.raw| <= i1 < |c.raw|
    ensures ExtrapolateWithRaw(x, ShiftedAxis(c.raw, baseline), c.force, i0, i1)
            == Extrapolate(c, x - (baseline - c.raw[0]), i0, i1)
    ensures ExtrapolateWithRaw(x, ShiftedAxis(c.raw, c.raw[0]), c.force, i0, i1) == Extrapolate(c, x, i0, i1)
  {
    var n := |c.raw|;
    var k0, k1 := PyIndex(i0, n), PyIndex(i1, n);
    var s := ShiftedAxis(c.raw, baseline);
    ShiftedAxisIndex(c.raw, baseline, k0);
    ShiftedAxisIndex(c.raw, baseline, k1);
    if c.raw[k1] != c.raw[k0] {
      SlopeSameRun(s[k0], c.force[k0], s[k1], c.force[k1], c.raw[k0], c.raw[k1]);
    }
    var s0 := ShiftedAxis(c.raw, c.raw[0]);
    ShiftedAxisIndex(c.raw, c.raw[0], k0);
    ShiftedAxisIndex(c.raw, c.raw[0], k1);
    if c.raw[k1] != c.raw[k0] {
      SlopeSameRun(s0[k0], c.force[k0], s0[k1], c.force[k1], c.raw[k0], c.raw[k1]);
    }
  }

  /** The last index `j` with `xp[j] <= x`. */
  function Bracket(x: real, xp: seq<real>): (j: nat)
    requires |xp| > 0 && xp[0] <= x
    ensures j < |xp| && xp[j] <= x
    ensures forall k :: j < k < |xp| ==> x < xp[k]
  {
    if xp[|xp| - 1] <= x then |xp| - 1 else Bracket(x, xp[..|xp| - 1])
  }

  /**
   * One-point linear interpolation in the manner of `np.interp`: the first
   * force below the axis, the last force above it, and otherwise the line
   * between point `j` and point `j + 1`, where `j` is the last index whose
   * raw value does not exceed `x` (this fixes the rule for repeated raw values).
   */
  function Interp(x: real, xp: seq<real>, fp: seq<real>): real
    requires |xp| == |fp| > 0
  {
    var n := |xp|;
    if x < xp[0] then fp[0]
    else if x > xp[n - 1] then fp[n - 1]
    else
      var j := Bracket(x, xp);
      if j == n - 1 then fp[n - 1]
      else
        fp[j] + Slope(xp[j], fp[j], xp[j + 1], fp[j + 1]) * (x - xp[j])
  }

  /**
   * The piecewise branch of `raw_to_force` on a given (shifted) raw axis:
   * extrapolate at or below its first or at or beyond its last point when
   * allowed (the lower test first), otherwise interpolate with clamping.
   */
  function PiecewiseOnAxis(x: real, axis: seq<real>, force: seq<real>, allowExtrapolation: bool): real
    requires |axis| == |force| >= 2
  {
    if allowExtrapolation && x <= axis[0] then ExtrapolateWithRaw(x, axis, force, 0, 1)
    else if allowExtrapolation && x >= axis[|axis| - 1] then ExtrapolateWithRaw(x, axis, force, -2, -1)
    else Interp(x, axis, force)
  }

  /** `raw_to_force` for the piecewise method: the raw axis shifted onto the baseline, then the branch above. */
  function RawToForce(c: Calibrator, x: real, baseline: real): real
    requires c.Valid() && c.conversion == Piecewise
  {
    PiecewiseOnAxis(x, ShiftedAxis(c.raw, baseline), c.force, c.allowExtrapolation)
  }

  // ---------------------------------------------------------------- properties

  /** At or below the baseline with extrapolation on: the line through the first two table points. */
  lemma RawToForceBelow(c: Calibrator, x: real, baseline: real)
    requires c.Valid() && c.conversion == Piecewise && c.allowExtrapolation
    requires x <= baseline
    ensures RawToForce(c, x, baseline) ==
      if c.raw[1] == c.raw[0] then c.force[0]
      else c.force[0] + Slope(c.raw[0], c.force[0], c.raw[1], c.force[1]) * (x - baseline)
  {
    var s := ShiftedAxis(c.raw, baseline);
    ShiftedAxisIndex(c.raw, baseline, 0);
    ShiftedAxisIndex(c.raw, baseline, 1);
    if c.raw[1] != c.raw[0] {
      SlopeSameRun(s[0], c.force[0], s[1], c.force[1], c.raw[0], c.raw[1]);
    }
  }

  /**
   * With extrapolation on, the baseline itself converts to the first
   * calibrated force, for every table the constructor accepts.
   */
  lemma RawToForceAtBaseline(c: Calibrator, baseline: real)
    requires c.Valid() && c.conversion == Piecewise && c.allowExtrapolation
    ensures RawToForce(c, baseline, baseline) == c.force[0]
  {
    RawToForceBelow(c, baseline, baseline);
  }

  /**
   * Above the baseline and at or beyond the last shifted point, with
   * extrapolation on: the line through the last two table points.
   */
  lemma RawToForceAbove(c: Calibrator, x: real, baseline: real)
    requires c.Valid() && c.conversion == Piecewise && c.allowExtrapolation
    requires x > baseline && x >= baseline + (c.raw[|c.raw| - 1] - c.raw[0])
    ensures var n := |c.raw|;
      RawToForce(c, x, baseline) ==
        if c.raw[n - 1] == c.raw[n - 2] then c.force[n - 2]
        else c.force[n - 2] + Slope(c.raw[n - 2], c.force[n - 2], c.raw[n - 1], c.force[n - 1])
                              * (x - (baseline + (c.raw[n - 2] - c.raw[0])))
  {
    var s := ShiftedAxis(c.raw, baseline);
    var n := |c.raw|;
    ShiftedAxisIndex(c.raw, baseline, 0);
    ShiftedAxisIndex(c.raw, baseline, n - 2);
    ShiftedAxisIndex(c.raw, baseline, n - 1);
    if c.raw[n - 1] != c.raw[n - 2] {
      SlopeSameRun(s[n - 2], c.force[n - 2], s[n - 1], c.force[n - 1], c.raw[n - 2], c.raw[n - 1]);
    }
  }

  /** Without extrapolation the result is clamped to the boundary forces outside the shifted range. */
  lemma RawToForceClamped(c: Calibrator, x: real, baseline: real)
    requires c.Valid() && c.conversion == Piecewise && !c.allowExtrapolation
    ensures x < baseline ==> RawToForce(c, x, baseline) == c.force[0]
    ensures x > baseline + (c.raw[|c.raw| - 1] - c.raw[0]) ==> RawToForce(c, x, baseline) == c.force[|c.force| - 1]
  {
    ShiftedAxisIndex(c.raw, baseline, 0);
    ShiftedAxisIndex(c.raw, baseline, |c.raw| - 1);
    NonDecreasingPairwise(c.raw, 0, |c.raw| - 1);
  }

  lemma BracketStrict(x: real, xp: seq<real>, i: nat)
    requires i + 1 < |xp| && Increasing(xp)
    requires xp[0] <= xp[i] <= x < xp[i + 1]
    ensures Bracket(x, xp) == i
  {
    var j := Bracket(x, xp);
    if j > i + 1 {
      IncreasingPairwise(xp, i + 1, j);
    }
  }

  /** Inside the axis, below its last point, `Interp` follows the segment after the bracket. */
  lemma InterpAtBracket(x: real, xp: seq<real>, fp: seq<real>, j: nat)
    requires |xp| == |fp| && j + 1 < |xp|
    requires xp[0] <= x <= xp[|xp| - 1] && Bracket(x, xp) == j
    ensures Interp(x, xp, fp) == fp[j] + Slope(xp[j], fp[j], xp[j + 1], fp[j + 1]) * (x - xp[j])
  {
  }

  /** The first point of an increasing axis is its least, the last its greatest. */
  lemma IncreasingBounds(xp: seq<real>, k: nat)
    requires Increasing(xp) && k < |xp|
    ensures xp[0] <= xp[k] <= xp[|xp| - 1]
  {
    if 0 < k {
      IncreasingPairwise(xp, 0, k);
    }
    if k < |xp| - 1 {
      IncreasingPairwise(xp, k, |xp| - 1);
    }
  }

  /** On an increasing axis, interpolating at a table point gives that point's force. */
  lemma InterpAtPoint(xp: seq<real>, fp: seq<real>, k: nat)
    requires |xp| == |fp| && Increasing(xp) && k < |xp|
    ensures Interp(xp[k], xp, fp) == fp[k]
  {
    IncreasingBounds(xp, k);
    if k < |xp| - 1 {
      IncreasingPairwise(xp, k, k + 1);
      BracketStrict(xp[k], xp, k);
    }
  }

  /** Interpolation on a strictly increasing axis between the bracketing points `i` and `i + 1`. */
  lemma InterpInterior(x: real, xp: seq<real>, fp: seq<real>, i: nat)
    requires |xp| == |fp| && i + 1 < |xp| && Increasing(xp)
    requires xp[i] < xp[i + 1] && xp[i] <= x <= xp[i + 1]
    ensures Interp(x, xp, fp) == fp[i] + Slope(xp[i], fp[i], xp[i + 1], fp[i + 1]) * (x - xp[i])
  {
    if x < xp[i + 1] {
      IncreasingBounds(xp, i);
      IncreasingBounds(xp, i + 1);
      BracketStrict(x, xp, i);
      InterpAtBracket(x, xp, fp, i);
    } else {
      InterpAtPoint(xp, fp, i + 1);
      SlopeReachesEnd(xp[i], fp[i], xp[i + 1], fp[i + 1]);
    }
  }

  lemma {:induction false} TranslateIncreasing(s: seq<real>, d: real)
    requires Increasing(s)
    ensures Increasing(Translate(s, d))
  {
    var n := |s|;
    if n >= 2 {
      assert Translate(s, d)[..n - 1] == Translate(s[..n - 1], d);
      TranslateIncreasing(s[..n - 1], d);
    }
  }

  /**
   * Inside the axis (strictly inside when extrapolating), the piecewise branch
   * follows the segment from point `i` to point `i + 1`, whose slope is that of
   * any run `u0`..`u1` of the same length.
   */
  lemma PiecewiseInterior(x: real, axis: seq<real>, force: seq<real>, allowExtrapolation: bool, i: nat, u0: real, u1: real)
    requires |axis| == |force| >= 2 && i + 1 < |axis| && Increasing(axis)
    requires axis[i] < axis[i + 1] && axis[i] <= x <= axis[i + 1]
    requires allowExtrapolation ==> axis[0] < x < axis[|axis| - 1]
    requires u1 - u0 == axis[i + 1] - axis[i]
    ensures PiecewiseOnAxis(x, axis, force, allowExtrapolation)
            == force[i] + Slope(u0, force[i], u1, force[i + 1]) * (x - axis[i])
  {
    InterpInterior(x, axis, force, i);
    SlopeSameRun(axis[i], force[i], axis[i + 1], force[i + 1], u0, u1);
  }

  /** The shifted axis of a strictly increasing table is increasing and keeps the gap after point `i`. */
  lemma ShiftedFacts(c: Calibrator, baseline: real, i: nat)
    requires c.Valid() && c.StrictlyIncreasing() && i + 1 < |c.raw|
    ensures var s := ShiftedAxis(c.raw, baseline);
      && Increasing(s)
      && s[0] == baseline
      && s[|s| - 1] == baseline + (c.raw[|c.raw| - 1] - c.raw[0])
      && s[i + 1] - s[i] == c.raw[i + 1] - c.raw[i]
  {
    ShiftedAxisIndex(c.raw, baseline, 0);
    ShiftedAxisIndex(c.raw, baseline, |c.raw| - 1);
    ShiftedAxisIndex(c.raw, baseline, i);
    ShiftedAxisIndex(c.raw, baseline, i + 1);
    TranslateIncreasing(c.raw, baseline - c.raw[0]);
  }

  /** For a query inside the shifted range, the shifted axis meets what `PiecewiseInterior` needs. */
  lemma ShiftedInteriorFacts(c: Calibrator, x: real, baseline: real, i: nat)
    requires c.Valid() && c.StrictlyIncreasing()
    requires i + 1 < |c.raw| && c.raw[i] < c.raw[i + 1]
    requires var s := ShiftedAxis(c.raw, baseline); s[i] <= x <= s[i + 1]
    requires c.allowExtrapolation ==> baseline < x < baseline + (c.raw[|c.raw| - 1] - c.raw[0])
    ensures var s := ShiftedAxis(c.raw, baseline);
      && Increasing(s)
      && s[i] < s[i + 1]
      && (c.allowExtrapolation ==> s[0] < x < s[|s| - 1])
      && c.raw[i + 1] - c.raw[i] == s[i + 1] - s[i]
  {
    ShiftedFacts(c, baseline, i);
  }

  /**
   * Inside the shifted range (anywhere when extrapolation is off), a strictly
   * increasing table interpolates linearly between the bracketing points.
   */
  lemma RawToForceInterior(c: Calibrator, x: real, baseline: real, i: nat)
    requires c.Valid() && c.conversion == Piecewise && c.StrictlyIncreasing()
    requires i + 1 < |c.raw| && c.raw[i] < c.raw[i + 1]
    requires var s := ShiftedAxis(c.raw, baseline); s[i] <= x <= s[i + 1]
    requires c.allowExtrapolation ==> baseline < x < baseline + (c.raw[|c.raw| - 1] - c.raw[0])
    ensures var s := ShiftedAxis(c.raw, baseline);
      RawToForce(c, x, baseline) == c.force[i] + Slope(c.raw[i], c.force[i], c.raw[i + 1], c.force[i + 1]) * (x - s[i])
  {
    var s := ShiftedAxis(c.raw, baseline);
    ShiftedInteriorFacts(c, x, baseline, i);
    PiecewiseInterior(x, s, c.force, c.allowExtrapolation, i, c.raw[i], c.raw[i + 1]);
  }

  /**
   * Continuity at the boundary: on a strictly increasing table the first and
   * last shifted points convert to the first and last calibrated forces,
   * whether or not extrapolation is on, so the extrapolation lines meet the
   * interpolated table there.
   */
  lemma RawToForceBoundary(c: Calibrator, baseline: real)
    requires c.Valid() && c.conversion == Piecewise && c.StrictlyIncreasing()
    ensures RawToForce(c, baseline, baseline) == c.force[0]
    ensures RawToForce(c, baseline + (c.raw[|c.raw| - 1] - c.raw[0]), baseline) == c.force[|c.force| - 1]
  {
    var n := |c.raw|;
    var s := ShiftedAxis(c.raw, baseline);
    var top := baseline + (c.raw[n - 1] - c.raw[0]);
    ShiftedFacts(c, baseline, 0);
    IncreasingPairwise(s, 0, 1);
    IncreasingPairwise(s, 0, n - 1);
    IncreasingPairwise(s, n - 2, n - 1);
    if c.allowExtrapolation {
      ExtrapolateThroughPoints(s, c.force, 0, 1);
      ExtrapolateThroughPoints(s, c.force, -2, -1);
    } else {
      InterpInterior(baseline, s, c.force, 0);
      InterpInterior(top, s, c.force, n - 2);
    }
  }

  lemma {:induction false} BracketTranslate(x: real, xp: seq<real>, d: real)
    requires |xp| > 0 && xp[0] <= x
    ensures Bracket(x + d, Translate(xp, d)) == Bracket(x, xp)
  {
    var n := |xp|;
    if xp[n - 1] > x {
      assert Translate(xp, d)[..n - 1] == Translate(xp[..n - 1], d);
      BracketTranslate(x, xp[..n - 1], d);
    }
  }

  lemma InterpTranslate(x: real, xp: seq<real>, fp: seq<real>, d: real)
    requires |xp| == |fp| > 0
    ensures Interp(x + d, Translate(xp, d), fp) == Interp(x, xp, fp)
  {
    var n := |xp|;
    var t := Translate(xp, d);
    TranslateIndex(xp, d, 0);
    TranslateIndex(xp, d, n - 1);
    if xp[0] <= x <= xp[n - 1] {
      BracketTranslate(x, xp, d);
      var j := Bracket(x, xp);
      if j < n - 1 {
        TranslateIndex(xp, d, j);
        TranslateIndex(xp, d, j + 1);
        SlopeSameRun(t[j], fp[j], t[j + 1], fp[j + 1], xp[j], xp[j + 1]);
      }
    }
  }

  lemma ExtrapolateTranslate(x: real, axis: seq<real>, force: seq<real>, d: real, i0: int, i1: int)
    requires |axis| == |force|
    requires -|axis| <= i0 < |axis| && -|axis| <= i1 < |axis|
    ensures ExtrapolateWithRaw(x + d, Translate(axis, d), force, i0, i1) == ExtrapolateWithRaw(x, axis, force, i0, i1)
  {
    var t := Translate(axis, d);
    var k0, k1 := PyIndex(i0, |axis|), PyIndex(i1, |axis|);
    TranslateIndex(axis, d, k0);
    TranslateIndex(axis, d, k1);
    if axis[k1] != axis[k0] {
      SlopeSameRun(t[k0], force[k0], t[k1], force[k1], axis[k0], axis[k1]);
    }
  }

  lemma PiecewiseTranslate(x: real, axis: seq<real>, force: seq<real>, allowExtrapolation: bool, d: real)
    requires |axis| == |force| >= 2
    ensures PiecewiseOnAxis(x + d, Translate(axis, d), force, allowExtrapolation)
            == PiecewiseOnAxis(x, axis, force, allowExtrapolation)
  {
    TranslateIndex(axis, d, 0);
    TranslateIndex(axis, d, |axis| - 1);
    if allowExtrapolation && x <= axis[0] {
      ExtrapolateTranslate(x, axis, force, d, 0, 1);
    } else if allowExtrapolation && x >= axis[|axis| - 1] {
      ExtrapolateTranslate(x, axis, force, d, -2, -1);
    } else {
      InterpTranslate(x, axis, force, d);
    }
  }

  /** Moving the baseline moves every point of the shifted axis by the same amount. */
  lemma ShiftedAxisMoves(raw: seq<real>, baseline: real, d: real)
    requires |raw| > 0
    ensures ShiftedAxis(raw, baseline + d) == Translate(ShiftedAxis(raw, baseline), d)
  {
    var s, t := ShiftedAxis(raw, baseline), ShiftedAxis(raw, baseline + d);
    forall i | 0 <= i < |raw| ensures t[i] == Translate(s, d)[i] {
      ShiftedAxisIndex(raw, baseline, i);
      ShiftedAxisIndex(raw, baseline + d, i);
      TranslateIndex(s, d, i);
    }
  }

  /**
   * Translation invariance: moving the query and the baseline by the same
   * amount leaves the converted force unchanged.
   */
  lemma RawToForceTranslationInvariant(c: Calibrator, x: real, baseline: real, d: real)
    requires c.Valid() && c.conversion == Piecewise
    ensures RawToForce(c, x + d, baseline + d) == RawToForce(c, x, baseline)
  {
    ShiftedAxisMoves(c.raw, baseline, d);
    PiecewiseTranslate(x, ShiftedAxis(c.raw, baseline), c.force, c.allowExtrapolation, d);
  }
}
