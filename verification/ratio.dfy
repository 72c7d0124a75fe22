/** The numerical core of the change map, over exact reals: the per-pixel
    square ratio of the pre- and post-event amplitudes, the calibration
    (the mean square ratio over the image) and the per-segment change
    coefficient 1 - calibration / ratio. */
module Ratio {
  import opened Common
  import opened ChangeMapTypes

  /** Added to both amplitudes so that near-zero samples cannot blow the
      ratio up. */
  const RATIO_EPSILON: real := 1.0

  /** isnormal() on a sample: finite and non-zero. Subnormal floats are not
      modelled; zero is not normal, so zero samples are substituted too. */
  predicate IsNormal(s: Sample) {
    s.Finite? && s.v != 0.0
  }

  /** The amplitude used for a sample: the sample itself when it is normal,
      the NaN substitute otherwise. */
  function Substitute(s: Sample, nanVal: real): (r: real)
    ensures IsNormal(s) ==> r == s.v
    ensures !IsNormal(s) ==> r == nanVal
    ensures s.NonFinite? ==> r == nanVal
    ensures r != nanVal ==> s.Finite? && s.v == r && r != 0.0
  {
    if IsNormal(s) then s.v else nanVal
  }

  /** ((1 + num) / (1 + den))^2, failing where the C code's assertion that
      the result is normal and positive would fail: a zero denominator (an
      infinite or NaN quotient) or a zero numerator (a zero ratio). */
  function SquareRatio(num: real, den: real): (r: Result<real, Error>)
    ensures r.Success? <==> RATIO_EPSILON + num != 0.0 && RATIO_EPSILON + den != 0.0
    ensures r.Success? ==> r.value > 0.0
    ensures r.Success? && num == den ==> r.value == 1.0
  {
    if RATIO_EPSILON + den == 0.0 then Failure(RatioNotPositive)
    else
      var q := (RATIO_EPSILON + num) / (RATIO_EPSILON + den);
      var sq := q * q;
      QuotientSquare(RATIO_EPSILON + num, RATIO_EPSILON + den);
      if sq == 0.0 then Failure(RatioNotPositive) else Success(sq)
  }

  /** A defined square ratio times the squared denominator is the squared
      numerator. */
  lemma SquareRatioScales(num: real, den: real)
    requires SquareRatio(num, den).Success?
    ensures SquareRatio(num, den).value * (RATIO_EPSILON + den) * (RATIO_EPSILON + den)
              == (RATIO_EPSILON + num) * (RATIO_EPSILON + num)
  {
    QuotientSquare(RATIO_EPSILON + num, RATIO_EPSILON + den);
  }

  /** With the pre-event amplitude fixed, the square ratio strictly grows as
      the post-event amplitude shrinks (while 1 + post stays positive). */
  lemma RatioGrowsAsPostShrinks(num: real, den1: real, den2: real)
    requires RATIO_EPSILON + num != 0.0
    requires 0.0 < RATIO_EPSILON + den2 < RATIO_EPSILON + den1
    ensures SquareRatio(num, den2).value > SquareRatio(num, den1).value
  {
    var e := RATIO_EPSILON + num;
    var b1 := RATIO_EPSILON + den1;
    var b2 := RATIO_EPSILON + den2;
    assert SquareRatio(num, den1).value == (e / b1) * (e / b1);
    assert SquareRatio(num, den2).value == (e / b2) * (e / b2);
    if e > 0.0 {
      QuotientSquareShrinks(e, b2, b1);
    } else {
      QuotientSquareShrinks(-e, b2, b1);
      NegatedQuotientSquare(e, b1);
      NegatedQuotientSquare(e, b2);
    }
  }

  /** The two rasters, the NaN substitute and the image size the calibration
      is computed over. */
  datatype Scene = Scene(pre: Raster, post: Raster, nanVal: real, height: nat, width: nat)

  /** Both rasters are at least as large as the image size (the C code
      asserts this before calibrating). */
  predicate FitsRasters(s: Scene) {
    && s.pre.rows >= s.height && s.post.rows >= s.height
    && s.pre.cols >= s.width && s.post.cols >= s.width
  }

  /** The square ratio of pixel (row, col). */
  function PixelRatio(s: Scene, row: nat, col: nat): (r: Result<real, Error>)
    requires FitsRasters(s) && row < s.height && col < s.width
    ensures r.Success? <==>
      && RATIO_EPSILON + Substitute(s.pre.samples[row][col], s.nanVal) != 0.0
      && RATIO_EPSILON + Substitute(s.post.samples[row][col], s.nanVal) != 0.0
    ensures r.Success? ==> r.value > 0.0
    ensures r.Success? ==>
      var a := RATIO_EPSILON + Substitute(s.pre.samples[row][col], s.nanVal);
      var b := RATIO_EPSILON + Substitute(s.post.samples[row][col], s.nanVal);
      r.value * b * b == a * a
    ensures r.Success? && s.pre.samples[row][col] == s.post.samples[row][col] ==> r.value == 1.0
  {
    var num := Substitute(s.pre.samples[row][col], s.nanVal);
    var den := Substitute(s.post.samples[row][col], s.nanVal);
    if SquareRatio(num, den).Success? then
      SquareRatioScales(num, den);
      SquareRatio(num, den)
    else SquareRatio(num, den)
  }

  /** The square ratio of a pixel of a scene whose ratios are all defined. */
  function DefinedRatio(s: Scene, row: nat, col: nat): (r: real)
    requires FitsRasters(s) && RatiosDefined(s) && row < s.height && col < s.width
    ensures PixelRatio(s, row, col) == Success(r)
    ensures r > 0.0
  {
    assert RowDefined(s, row, s.width);
    PixelRatio(s, row, col).value
  }

  /** The square ratios of the first `j` pixels of row `i` are defined. */
  predicate RowDefined(s: Scene, i: nat, j: nat)
    requires FitsRasters(s) && i < s.height && j <= s.width
  {
    forall k :: 0 <= k < j ==> PixelRatio(s, i, k).Success?
  }

  /** The square ratios of every pixel of the first `i` rows are defined. */
  predicate RowsDefined(s: Scene, i: nat)
    requires FitsRasters(s) && i <= s.height
  {
    forall k :: 0 <= k < i ==> RowDefined(s, k, s.width)
  }

  predicate RatiosDefined(s: Scene)
    requires FitsRasters(s)
  {
    RowsDefined(s, s.height)
  }

  /** Sum of the square ratios of the first `j` pixels of row `i`. */
  function RowSum(s: Scene, i: nat, j: nat): (r: real)
    requires FitsRasters(s) && i < s.height && j <= s.width && RowDefined(s, i, j)
    ensures r >= 0.0
    ensures j > 0 ==> r > 0.0
    decreases j
  {
    if j == 0 then 0.0 else RowSum(s, i, j - 1) + PixelRatio(s, i, j - 1).value
  }

  /** Sum of the square ratios of every pixel of the first `i` rows. */
  function GridSum(s: Scene, i: nat): (r: real)
    requires FitsRasters(s) && i <= s.height && RowsDefined(s, i)
    ensures r >= 0.0
    ensures i > 0 && s.width > 0 ==> r > 0.0
    decreases i
  {
    if i == 0 then 0.0 else GridSum(s, i - 1) + RowSum(s, i - 1, s.width)
  }

  /** The calibration: the mean square ratio over all height * width pixels.
      It fails where the C code aborts: a raster smaller than the image, an
      undefined ratio, or an empty image (0 / 0 is not a normal number). */
  function Calibration(s: Scene): (r: Result<real, Error>)
    ensures r.Success? <==> FitsRasters(s) && RatiosDefined(s) && s.height > 0 && s.width > 0
    ensures r.Success? ==> r.value > 0.0
    ensures r.Success? ==> r.value == Mean(GridSum(s, s.height), PixelCount(s))
  {
    if !FitsRasters(s) then Failure(ImageSizeMismatch)
    else if !RatiosDefined(s) then Failure(RatioNotPositive)
    else if s.height == 0 || s.width == 0 then Failure(CalibrationNotNormal)
    else
      var sum := GridSum(s, s.height);
      Success(Mean(sum, PixelCount(s)))
  }

  /** The number of pixels of the image. */
  function PixelCount(s: Scene): (n: nat)
    ensures n > 0 <==> s.height > 0 && s.width > 0
  {
    Cells(s.height, s.width)
  }

  /** The number of pixels in `rows` rows of `cols` pixels, counted row by
      row as the calibration pass visits them. */
  function Cells(rows: nat, cols: nat): (n: nat)
    ensures n > 0 <==> rows > 0 && cols > 0
  {
    if rows == 0 then 0 else Cells(rows - 1, cols) + cols
  }

  lemma {:induction false} CellsIsProduct(rows: nat, cols: nat)
    ensures Cells(rows, cols) == rows * cols
  {
    if rows > 0 {
      CellsIsProduct(rows - 1, cols);
      assert rows * cols == (rows - 1) * cols + cols;
    }
  }

  /** The mean of `n` values that add up to `sum`. */
  function Mean(sum: real, n: nat): (m: real)
    requires n > 0
    ensures m * n as real == sum
    ensures sum > 0.0 ==> m > 0.0
  {
    QuotientTimesDivisor(sum, n as real);
    sum / n as real
  }

  /** The calibration pass as the C code runs it: a row-major double loop
      with Kahan-compensated summation. Over exact reals the compensation
      term stays zero and the loop computes the plain mean. */
  method Recalibrate(s: Scene) returns (r: Result<real, Error>)
    ensures r == Calibration(s)
  {
    if !FitsRasters(s) {
      return Failure(ImageSizeMismatch);
    }
    var sum := 0.0;
    var c := 0.0;
    var i := 0;
    while i < s.height
      invariant 0 <= i <= s.height
      invariant c == 0.0
      invariant RowsDefined(s, i)
      invariant sum == GridSum(s, i)
    {
      var row;
      row, c := SumRow(s, i, sum, c);
      if row.Failure? {
        return Failure(RatioNotPositive);
      }
      sum := row.value;
      i := i + 1;
    }
    if s.height == 0 || s.width == 0 {
      return Failure(CalibrationNotNormal);
    }
    r := Success(sum / PixelCount(s) as real);
  }

  /** The inner loop of the calibration pass: adds the square ratios of row
      `i` to `sum` with Kahan compensation `c`, failing on the first ratio
      that is not defined. */
  method SumRow(s: Scene, i: nat, sum: real, c: real) returns (r: Result<real, Error>, c': real)
    requires FitsRasters(s) && i < s.height
    requires c == 0.0
    ensures c' == 0.0
    ensures r.Success? <==> RowDefined(s, i, s.width)
    ensures r.Success? ==> r.value == sum + RowSum(s, i, s.width)
  {
    var acc := sum;
    c' := c;
    var j := 0;
    while j < s.width
      invariant 0 <= j <= s.width
      invariant c' == 0.0
      invariant RowDefined(s, i, j)
      invariant acc == sum + RowSum(s, i, j)
    {
      var q := PixelRatio(s, i, j);
      if q.Failure? {
        return Failure(RatioNotPositive), c';
      }
      var y := q.value - c';
      var t := acc + y;
      c' := (t - acc) - y;
      acc := t;
      j := j + 1;
    }
    r := Success(acc);
  }

  /** Every row of a scene whose ratios are all 1 sums to its length. */
  lemma {:induction false} RowSumOfUnitRatios(s: Scene, i: nat, j: nat)
    requires FitsRasters(s) && i < s.height && j <= s.width && RowDefined(s, i, j)
    requires forall k :: 0 <= k < j ==> PixelRatio(s, i, k) == Success(1.0)
    ensures RowSum(s, i, j) == j as real
    decreases j
  {
    if j > 0 {
      RowSumOfUnitRatios(s, i, j - 1);
    }
  }

  lemma {:induction false} GridSumOfUnitRatios(s: Scene, i: nat)
    requires FitsRasters(s) && i <= s.height && RowsDefined(s, i)
    requires forall a, b :: 0 <= a < i && 0 <= b < s.width ==> PixelRatio(s, a, b) == Success(1.0)
    ensures GridSum(s, i) == Cells(i, s.width) as real
    decreases i
  {
    if i > 0 {
      GridSumOfUnitRatios(s, i - 1);
      assert RowDefined(s, i - 1, s.width);
      RowSumOfUnitRatios(s, i - 1, s.width);
    }
  }

  /** A scene whose pre and post images are identical calibrates to exactly 1. */
  lemma CalibrationOfIdenticalRasters(s: Scene)
    requires s.pre == s.post
    requires Calibration(s).Success?
    ensures Calibration(s) == Success(1.0)
  {
    forall a, b | 0 <= a < s.height && 0 <= b < s.width
      ensures PixelRatio(s, a, b) == Success(1.0)
    {
      UnitRatio(s, a, b);
    }
    GridSumOfUnitRatios(s, s.height);
    MeanOfOnes(PixelCount(s));
  }

  /** A pixel of a calibratable scene with identical images has ratio 1. */
  lemma UnitRatio(s: Scene, a: nat, b: nat)
    requires s.pre == s.post
    requires FitsRasters(s) && RatiosDefined(s) && a < s.height && b < s.width
    ensures PixelRatio(s, a, b) == Success(1.0)
  {
    assert RowDefined(s, a, s.width);
  }

  /** The mean of n ones is one. */
  lemma MeanOfOnes(n: nat)
    requires n > 0
    ensures Mean(n as real, n) == 1.0
  {
    UnitFactor(Mean(n as real, n), n as real);
  }

  /** The change coefficient 1 - cal / r: zero exactly when the local ratio
      equals the calibration, positive exactly when it exceeds it, and always
      below 1 because both are positive. */
  function ChangeCoefficient(cal: real, r: real): (c: real)
    requires cal > 0.0 && r > 0.0
    ensures c < 1.0
    ensures c == 0.0 <==> r == cal
    ensures c > 0.0 <==> r > cal
  {
    QuotientVersusOne(cal, r);
    1.0 - cal / r
  }

  /** A larger local ratio gives a larger change coefficient. */
  lemma ChangeGrowsWithRatio(cal: real, r1: real, r2: real)
    requires cal > 0.0 && 0.0 < r1 < r2
    ensures ChangeCoefficient(cal, r1) < ChangeCoefficient(cal, r2)
  {
    QuotientShrinks(cal, r1, r2);
  }

  /** The change coefficient as the C code checks it: the result must be a
      normal number, and 0 is not, so a segment whose local ratio equals the
      calibration aborts the program. */
  function ChangeCoefficientAsWritten(cal: real, r: real): (c: Result<real, Error>)
    requires cal > 0.0 && r > 0.0
    ensures c.Failure? <==> r == cal
    ensures c.Success? ==> c.value == ChangeCoefficient(cal, r)
  {
    var d := 1.0 - cal / r;
    if d == 0.0 then Failure(ChangeNotNormal) else Success(d)
  }

  /** With identical pre and post images, the as-written check rejects every
      pixel's change coefficient, while the corrected coefficient is 0. */
  lemma IdenticalRastersAbortAsWritten(s: Scene, row: nat, col: nat)
    requires s.pre == s.post
    requires Calibration(s).Success?
    requires row < s.height && col < s.width
    ensures PixelRatio(s, row, col).Success?
    ensures ChangeCoefficientAsWritten(Calibration(s).value, PixelRatio(s, row, col).value).Failure?
    ensures ChangeCoefficient(Calibration(s).value, PixelRatio(s, row, col).value) == 0.0
  {
    CalibrationOfIdenticalRasters(s);
    assert RowDefined(s, row, s.width);
  }

  // Arithmetic facts over reals: positivity, scaling and ordering of
  // products and quotients. They carry no meaning of their own; they exist
  // to lead the solver through the nonlinear steps of the lemmas above, each
  // kept small so it is proved without other facts in scope.

  lemma ScaleStrict(x: real, y: real, c: real)
    requires x < y && c > 0.0
    ensures x * c < y * c
  {
  }

  lemma QuotientTimesDivisor(x: real, b: real)
    requires b > 0.0
    ensures (x / b) * b == x
  {
  }

  lemma UnitFactor(x: real, n: real)
    requires n > 0.0 && x * n == n
    ensures x == 1.0
  {
    assert (x - 1.0) * n == 0.0;
  }

  lemma PositiveProduct(a: real, b: real)
    requires a > 0.0 && b > 0.0
    ensures a * b > 0.0
  {
  }

  lemma BelowOneFromProduct(q: real, r: real, cal: real)
    requires r > 0.0 && q * r == cal && r > cal
    ensures q < 1.0
  {
    var d := 1.0 - q;
    assert d * r == r - cal;
  }

  lemma QuotientVersusOne(cal: real, r: real)
    requires cal > 0.0 && r > 0.0
    ensures cal / r < 1.0 <==> r > cal
    ensures cal / r == 1.0 <==> r == cal
    ensures cal / r > 0.0
  {
    var q := cal / r;
    QuotientTimesDivisor(cal, r);
    if q == 1.0 { assert cal == 1.0 * r; }
    if q < 1.0 { ScaleStrict(q, 1.0, r); }
    if r > cal { BelowOneFromProduct(q, r, cal); }
  }

  lemma QuotientShrinks(a: real, x: real, y: real)
    requires a > 0.0 && 0.0 < x < y
    ensures 0.0 < a / y < a / x
  {
  }

  lemma QuotientSquareShrinks(a: real, x: real, y: real)
    requires a > 0.0 && 0.0 < x < y
    ensures (a / x) * (a / x) > (a / y) * (a / y)
  {
    QuotientShrinks(a, x, y);
    SquareGrows(a / y, a / x);
  }

  lemma NegatedQuotientSquare(e: real, b: real)
    requires b != 0.0
    ensures (-e / b) * (-e / b) == (e / b) * (e / b)
  {
    assert -e / b == -(e / b);
  }

  lemma SquareGrows(x: real, y: real)
    requires 0.0 <= x < y
    ensures x * x < y * y
  {
    assert y * y - x * x == (y - x) * (y + x);
    PositiveProduct(y - x, y + x);
  }

  lemma QuotientSquare(e: real, b: real)
    requires b != 0.0
    ensures (e / b) * (e / b) >= 0.0
    ensures (e / b) * (e / b) == 0.0 <==> e == 0.0
    ensures (e / b) * (e / b) * b * b == e * e
  {
  }
}
