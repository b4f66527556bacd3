/** Growth projector (`get_employee_growth`): from the number of non-archived
    employees registered in each month, the average monthly count and a
    one-month-ahead projection from an ordinary-least-squares line fitted to
    (month index, count). The registration rows come in as (month label, count)
    pairs in the order the database returned them; the month at position `i`
    gets regression index `i`. */
module Growth {
  import opened Wrappers
  import opened Rounding
  import PyDict
  import opened Sums

  /** A row of the monthly query: the "YYYY-MM" label and its registration count. */
  type MonthRow = (string, nat)

  datatype GrowthReport = GrowthReport(
    monthlyRegistrations: seq<MonthRow>,  // the `monthly` dict
    averageGrowth: real,
    projection: int)

  /** `LinearRegression.fit` refuses a training set with no samples. */
  datatype FitError = EmptyTrainingSet

  // ---------------------------------------------------------------------------
  // The points (i, ys[i]), i = 0 .. |ys| - 1, and their sums

  /** The count at index `i` (0 past the end, where no sum looks). */
  function CountAt(ys: seq<int>, i: nat): real
  {
    if i < |ys| then ys[i] as real else 0.0
  }

  function X(i: nat): real { i as real }
  function XX(i: nat): real { i as real * i as real }
  function One(i: nat): real { 1.0 }
  function Zero(i: nat): real { 0.0 }

  /** Σ y */
  function SumY(ys: seq<int>): real
  {
    Sum(|ys|, (i: nat) => CountAt(ys, i))
  }

  /** Σ x·y */
  function SumXY(ys: seq<int>): real
  {
    Sum(|ys|, (i: nat) => i as real * CountAt(ys, i))
  }

  /** Σ x over x = 0 .. n - 1 */
  function SumX(n: nat): real
  {
    Sum(n, X)
  }

  /** Σ x² over x = 0 .. n - 1 */
  function SumXX(n: nat): real
  {
    Sum(n, XX)
  }

  /** n·Σx² − (Σx)², the denominator of the closed-form slope. */
  function Spread(n: nat): real
  {
    n as real * SumXX(n) - SumX(n) * SumX(n)
  }

  lemma {:induction false} SumXClosed(n: nat)
    ensures 2.0 * SumX(n) == n as real * (n as real - 1.0)
  {
    if n > 0 {
      SumXClosed(n - 1);
    }
  }

  lemma {:induction false} SumXXClosed(n: nat)
    ensures 6.0 * SumXX(n) == n as real * (n as real - 1.0) * (2.0 * n as real - 1.0)
  {
    if n > 0 {
      SumXXClosed(n - 1);
      var m := (n - 1) as real;
      assert m * (m - 1.0) * (2.0 * m - 1.0) == 2.0 * m * m * m - 3.0 * m * m + m;
      assert (m + 1.0) * m * (2.0 * m + 1.0) == 2.0 * m * m * m + 3.0 * m * m + m;
    }
  }

  /** The denominator is n²(n−1)(n+1)/12: zero for one point, positive from two
      points on, so the closed-form slope never divides by zero there. */
  lemma SpreadPositive(n: nat)
    requires n >= 2
    ensures 12.0 * Spread(n) == n as real * n as real * (n as real - 1.0) * (n as real + 1.0)
    ensures Spread(n) > 0.0
  {
    SumXClosed(n);
    SumXXClosed(n);
    var m, sx, sxx := n as real, SumX(n), SumXX(n);
    calc {
      12.0 * Spread(n);
      2.0 * m * (6.0 * sxx) - 3.0 * (2.0 * sx) * (2.0 * sx);
      2.0 * m * (m * (m - 1.0) * (2.0 * m - 1.0)) - 3.0 * (m * (m - 1.0)) * (m * (m - 1.0));
      m * m * (m - 1.0) * (m + 1.0);
    }
    assert m * m > 0.0 && (m - 1.0) * (m + 1.0) > 0.0;
    assert (m * m) * ((m - 1.0) * (m + 1.0)) > 0.0;
  }

  // ---------------------------------------------------------------------------
  // The fitted line count = Slope·index + Intercept

  /** The closed-form OLS slope from the point sums. When the indices have no
      spread (fewer than two points) the centred design is all zeros and the
      least-squares solver returns slope 0. */
  function SlopeOf(n: real, sx: real, sxx: real, sy: real, sxy: real): real
  {
    var spread := n * sxx - sx * sx;
    if spread == 0.0 then 0.0 else (n * sxy - sx * sy) / spread
  }

  /** The OLS intercept b = ȳ − a·x̄ from the point sums. */
  function InterceptOf(n: real, sx: real, sy: real, a: real): real
  {
    if n == 0.0 then 0.0 else (sy - a * sx) / n
  }

  /** The slope a = (nΣxy − ΣxΣy)/(nΣx² − (Σx)²) of the line fitted to the counts. */
  function Slope(ys: seq<int>): real
  {
    var n := |ys|;
    SlopeOf(n as real, SumX(n), SumXX(n), SumY(ys), SumXY(ys))
  }

  /** The intercept of the line fitted to the counts. */
  function Intercept(ys: seq<int>): real
  {
    var n := |ys|;
    InterceptOf(n as real, SumX(n), SumY(ys), Slope(ys))
  }

  /** The fitted line evaluated at index `n`, the month after the last one. */
  function NextValue(ys: seq<int>): real
  {
    Affine(Slope(ys), |ys| as real, Intercept(ys))
  }

  /** The line y = a·x + b at x. */
  function Affine(a: real, x: real, b: real): real
  {
    a * x + b
  }

  /** `round(model.predict([[n]])[0])` */
  function Projection(ys: seq<int>): (p: int)
    ensures -0.5 <= p as real - NextValue(ys) <= 0.5
  {
    RoundHalfEven(NextValue(ys))
  }

  /** `sum(monthly.values()) / len(monthly) if monthly else 0` */
  function Mean(ys: seq<int>): real
  {
    MeanOf(|ys| as real, SumY(ys))
  }

  function MeanOf(n: real, sy: real): real
  {
    if n == 0.0 then 0.0 else sy / n
  }

  // ---------------------------------------------------------------------------
  // Residuals of a candidate line y = a·x + b

  function Residual(ys: seq<int>, a: real, b: real, i: nat): real
  {
    CountAt(ys, i) - Affine(a, i as real, b)
  }

  /** Σ residual */
  function SumResidual(ys: seq<int>, a: real, b: real): real
  {
    Sum(|ys|, (i: nat) => Residual(ys, a, b, i))
  }

  /** Σ x·residual */
  function SumXResidual(ys: seq<int>, a: real, b: real): real
  {
    Sum(|ys|, (i: nat) => i as real * Residual(ys, a, b, i))
  }

  /** Σ residual², the quantity ordinary least squares minimises. */
  function SquaredError(ys: seq<int>, a: real, b: real): real
  {
    Sum(|ys|, (i: nat) => Residual(ys, a, b, i) * Residual(ys, a, b, i))
  }

  /** The residual sum in terms of the point sums. */
  lemma SumResidualClosed(ys: seq<int>, a: real, b: real)
    ensures SumResidual(ys, a, b) == Combine(SumY(ys), -a, SumX(|ys|), -b, |ys| as real)
  {
    forall i: nat | i < |ys|
      ensures Residual(ys, a, b, i) == Combine(CountAt(ys, i), -a, X(i), -b, One(i))
    {
      ResidualPoint(CountAt(ys, i), i as real, a, b);
    }
    SumCombination(|ys|, (i: nat) => Residual(ys, a, b, i), (i: nat) => CountAt(ys, i), X, One, -a, -b);
    SumOfOnes(|ys|, One);
  }

  lemma ResidualPoint(y: real, x: real, a: real, b: real)
    ensures y - Affine(a, x, b) == Combine(y, -a, x, -b, 1.0)
  {
  }

  /** The index-weighted residual sum in terms of the point sums. */
  lemma SumXResidualClosed(ys: seq<int>, a: real, b: real)
    ensures SumXResidual(ys, a, b) == Combine(SumXY(ys), -a, SumXX(|ys|), -b, SumX(|ys|))
  {
    forall i: nat | i < |ys|
      ensures i as real * Residual(ys, a, b, i) == Combine(i as real * CountAt(ys, i), -a, XX(i), -b, X(i))
    {
      XResidualPoint(CountAt(ys, i), i as real, a, b);
    }
    SumCombination(|ys|, (i: nat) => i as real * Residual(ys, a, b, i), (i: nat) => i as real * CountAt(ys, i),
                   XX, X, -a, -b);
  }

  lemma XResidualPoint(y: real, x: real, a: real, b: real)
    ensures x * (y - Affine(a, x, b)) == Combine(x * y, -a, x * x, -b, x)
  {
  }

  /** The fitted line solves the normal equations: its residuals sum to zero
      and are uncorrelated with the index. */
  lemma FitSolvesNormalEquations(ys: seq<int>)
    ensures SumResidual(ys, Slope(ys), Intercept(ys)) == 0.0
    ensures SumXResidual(ys, Slope(ys), Intercept(ys)) == 0.0
  {
    var n := |ys|;
    if n == 1 {
      OnePointFit(ys);
    } else if n >= 2 {
      SumResidualClosed(ys, Slope(ys), Intercept(ys));
      SumXResidualClosed(ys, Slope(ys), Intercept(ys));
      SpreadPositive(n);
      NormalEquationsAlgebra(n as real, SumX(n), SumXX(n), SumY(ys), SumXY(ys));
    }
  }

  /** With one month the fitted line is flat through its count. */
  lemma OnePointFit(ys: seq<int>)
    requires |ys| == 1
    ensures SumResidual(ys, Slope(ys), Intercept(ys)) == 0.0
    ensures SumXResidual(ys, Slope(ys), Intercept(ys)) == 0.0
  {
    SumResidualClosed(ys, Slope(ys), Intercept(ys));
    SumXResidualClosed(ys, Slope(ys), Intercept(ys));
    assert SumX(1) == 0.0 && SumXX(1) == 0.0 && SumXY(ys) == 0.0;
    OnePointAlgebra(SumY(ys));
  }

  lemma OnePointAlgebra(sy: real)
    ensures var a := SlopeOf(1.0, 0.0, 0.0, sy, 0.0);
            var b := InterceptOf(1.0, 0.0, sy, a);
            Combine(sy, -a, 0.0, -b, 1.0) == 0.0 && Combine(0.0, -a, 0.0, -b, 0.0) == 0.0
  {
  }

  /** The closed-form slope and intercept zero both normal equations. */
  lemma NormalEquationsAlgebra(n: real, sx: real, sxx: real, sy: real, sxy: real)
    requires n > 0.0 && n * sxx - sx * sx != 0.0
    ensures var a := SlopeOf(n, sx, sxx, sy, sxy);
            var b := InterceptOf(n, sx, sy, a);
            Combine(sy, -a, sx, -b, n) == 0.0 && Combine(sxy, -a, sxx, -b, sx) == 0.0
  {
    var a := SlopeOf(n, sx, sxx, sy, sxy);
    var b := InterceptOf(n, sx, sy, a);
    var d := n * sxx - sx * sx;
    assert a * d == n * sxy - sx * sy;
    assert n * b == sy - a * sx;
    calc {
      n * (sxy - a * sxx - b * sx);
      n * sxy - a * (n * sxx) - (n * b) * sx;
      n * sxy - a * (n * sxx) - (sy - a * sx) * sx;
      (n * sxy - sx * sy) - a * d;
      0.0;
    }
  }

  /** Any line's squared error exceeds that of a line (a, b) by at least the
      cross terms 2·Δa·Σx·r + 2·Δb·Σr of (a, b)'s residuals r. */
  lemma SquaredErrorExpansion(ys: seq<int>, a: real, b: real, a': real, b': real)
    ensures SquaredError(ys, a', b') >= Combine(SquaredError(ys, a, b),
                                                2.0 * (a - a'), SumXResidual(ys, a, b),
                                                2.0 * (b - b'), SumResidual(ys, a, b))
  {
    forall i: nat | i < |ys|
      ensures Residual(ys, a', b', i) * Residual(ys, a', b', i)
              >= Combine(Residual(ys, a, b, i) * Residual(ys, a, b, i),
                         2.0 * (a - a'), i as real * Residual(ys, a, b, i),
                         2.0 * (b - b'), Residual(ys, a, b, i))
    {
      PointExpansion(CountAt(ys, i), i as real, a, b, a', b');
    }
    SumDominates(|ys|, (i: nat) => Residual(ys, a', b', i) * Residual(ys, a', b', i),
                 (i: nat) => Residual(ys, a, b, i) * Residual(ys, a, b, i),
                 (i: nat) => i as real * Residual(ys, a, b, i), (i: nat) => Residual(ys, a, b, i),
                 2.0 * (a - a'), 2.0 * (b - b'));
  }

  /** At one point: the squared residual of (a', b') against that of (a, b). */
  lemma PointExpansion(y: real, x: real, a: real, b: real, a': real, b': real)
    ensures (y - Affine(a', x, b')) * (y - Affine(a', x, b'))
            >= Combine((y - Affine(a, x, b)) * (y - Affine(a, x, b)),
                       2.0 * (a - a'), x * (y - Affine(a, x, b)),
                       2.0 * (b - b'), y - Affine(a, x, b))
  {
    var r, e := y - Affine(a, x, b), (a - a') * x + (b - b');
    assert y - Affine(a', x, b') == r + e;
    assert (r + e) * (r + e) == r * r + 2.0 * r * e + e * e;
    assert e * e >= 0.0;
    assert 2.0 * r * e == 2.0 * (a - a') * (x * r) + 2.0 * (b - b') * r;
  }

  /** The fitted line is a least-squares line: no line through the points
      (i, ys[i]) has a smaller sum of squared residuals. */
  lemma FitIsLeastSquares(ys: seq<int>, a': real, b': real)
    ensures SquaredError(ys, a', b') >= SquaredError(ys, Slope(ys), Intercept(ys))
  {
    var a, b := Slope(ys), Intercept(ys);
    FitSolvesNormalEquations(ys);
    SquaredErrorExpansion(ys, a, b, a', b');
    CombineOfZeros(SquaredError(ys, a, b), 2.0 * (a - a'), 2.0 * (b - b'));
  }

  lemma CombineOfZeros(f: real, c: real, d: real)
    ensures Combine(f, c, 0.0, d, 0.0) == f
  {
  }

  // ---------------------------------------------------------------------------
  // Points that already lie on a line

  /** The counts lie exactly on the line count_i = c·i + d. */
  predicate OnLine(ys: seq<int>, c: real, d: real)
  {
    forall i: nat :: i < |ys| ==> CountAt(ys, i) == Affine(c, i as real, d)
  }

  /** Counts that lie exactly on a line are fitted by that very line (given at
      least two months, so that the line is determined). */
  lemma ExactLineFitted(ys: seq<int>, c: real, d: real)
    requires |ys| >= 2 && OnLine(ys, c, d)
    ensures Slope(ys) == c && Intercept(ys) == d
  {
    var n := |ys|;
    LineSumY(ys, c, d);
    LineSumXY(ys, c, d);
    SpreadPositive(n);
    LineAlgebra(n as real, SumX(n), SumXX(n), SumY(ys), SumXY(ys), c, d);
  }

  /** ... so with whole-number slope c and intercept d the projection is the
      line's next value c·n + d. */
  lemma ExactLineProjected(ys: seq<int>, c: int, d: int)
    requires |ys| >= 2 && OnLine(ys, c as real, d as real)
    ensures Projection(ys) == c * |ys| + d
  {
    ExactLineFitted(ys, c as real, d as real);
    RoundOfLine(c, |ys|, d);
  }

  /** A line with whole-number slope and intercept takes whole values at whole
      indices, which rounding leaves alone. */
  lemma RoundOfLine(c: int, x: int, d: int)
    ensures RoundHalfEven(Affine(c as real, x as real, d as real)) == c * x + d
  {
    CastAffine(c, x, d);
    RoundOfInteger(c * x + d);
  }

  lemma CastAffine(c: int, n: int, d: int)
    ensures (c * n + d) as real == c as real * n as real + d as real
  {
  }

  /** The point sums of counts on the line count_i = c·i + d. */
  lemma LineSumY(ys: seq<int>, c: real, d: real)
    requires OnLine(ys, c, d)
    ensures SumY(ys) == Combine(0.0, c, SumX(|ys|), d, |ys| as real)
  {
    forall i: nat | i < |ys| ensures CountAt(ys, i) == Combine(Zero(i), c, X(i), d, One(i)) {
      LinePoint(i as real, c, d);
    }
    SumCombination(|ys|, (i: nat) => CountAt(ys, i), Zero, X, One, c, d);
    SumOfZeros(|ys|);
    SumOfOnes(|ys|, One);
  }

  lemma LineSumXY(ys: seq<int>, c: real, d: real)
    requires OnLine(ys, c, d)
    ensures SumXY(ys) == Combine(0.0, c, SumXX(|ys|), d, SumX(|ys|))
  {
    forall i: nat | i < |ys| ensures i as real * CountAt(ys, i) == Combine(Zero(i), c, XX(i), d, X(i)) {
      LinePoint(i as real, c, d);
    }
    SumCombination(|ys|, (i: nat) => i as real * CountAt(ys, i), Zero, XX, X, c, d);
    SumOfZeros(|ys|);
  }

  lemma LinePoint(x: real, c: real, d: real)
    ensures Affine(c, x, d) == Combine(0.0, c, x, d, 1.0)
    ensures x * Affine(c, x, d) == Combine(0.0, c, x * x, d, x)
  {
  }

  lemma {:induction false} SumOfZeros(n: nat)
    ensures Sum(n, Zero) == 0.0
  {
    if n > 0 {
      SumOfZeros(n - 1);
    }
  }

  /** For sums of points on y = c·x + d the closed-form slope and intercept are c and d. */
  lemma LineAlgebra(n: real, sx: real, sxx: real, sy: real, sxy: real, c: real, d: real)
    requires n > 0.0 && n * sxx - sx * sx != 0.0
    requires sy == Combine(0.0, c, sx, d, n)
    requires sxy == Combine(0.0, c, sxx, d, sx)
    ensures SlopeOf(n, sx, sxx, sy, sxy) == c
    ensures InterceptOf(n, sx, sy, c) == d
  {
    assert n * sxy - sx * sy == c * (n * sxx - sx * sx);
  }

  /** The average lies between the smallest and the largest monthly count. */
  lemma MeanWithinCounts(ys: seq<int>, lo: int, hi: int)
    requires ys != []
    requires forall i :: 0 <= i < |ys| ==> lo <= ys[i] <= hi
    ensures lo as real <= Mean(ys) <= hi as real
  {
    var n := |ys|;
    forall i: nat | i < n ensures CountAt(ys, i) >= Combine(Zero(i), lo as real, One(i), 0.0, One(i)) {
      Bound(CountAt(ys, i), lo as real);
    }
    forall i: nat | i < n ensures Zero(i) >= Combine(CountAt(ys, i), -(hi as real), One(i), 0.0, One(i)) {
      Bound(hi as real, CountAt(ys, i));
    }
    SumOfOnes(n, One);
    SumOfZeros(n);
    SumDominates(n, (i: nat) => CountAt(ys, i), Zero, One, One, lo as real, 0.0);
    SumDominates(n, Zero, (i: nat) => CountAt(ys, i), One, One, -(hi as real), 0.0);
    MeanBetween(SumY(ys), n as real, lo as real, hi as real);
  }

  lemma Bound(y: real, lo: real)
    requires lo <= y
    ensures y >= Combine(0.0, lo, 1.0, 0.0, 1.0)
    ensures 0.0 >= Combine(lo, -y, 1.0, 0.0, 1.0)
  {
  }

  lemma MeanBetween(s: real, n: real, lo: real, hi: real)
    requires n > 0.0
    requires s >= Combine(0.0, lo, n, 0.0, n) && 0.0 >= Combine(s, -hi, n, 0.0, n)
    ensures lo <= MeanOf(n, s) <= hi
  {
  }

  // ---------------------------------------------------------------------------
  // The operation

  /** The counts of the `monthly` dict, in its order. */
  function Counts(monthly: seq<MonthRow>): (ys: seq<int>)
    ensures |ys| == |monthly| && forall i :: 0 <= i < |ys| ==> ys[i] == monthly[i].1 >= 0
  {
    PyDict.Values(monthly)
  }

  /** `get_employee_growth`, as written: the fit on zero months raises;
      otherwise the report holds the month dict, the mean count and the
      rounded projection of the fitted line. */
  function EmployeeGrowth(rows: seq<MonthRow>): (r: Result<GrowthReport, FitError>)
    ensures r.Failure? <==> rows == []
    ensures r.Success? ==> r.value.monthlyRegistrations == PyDict.FromPairs(rows)
    ensures r.Success? ==>
              r.value.averageGrowth == Mean(Counts(r.value.monthlyRegistrations)) &&
              r.value.projection == Projection(Counts(r.value.monthlyRegistrations))
    ensures |rows| == 1 ==> r == Success(GrowthReport(rows, rows[0].1 as real, rows[0].1))
  {
    var monthly := PyDict.FromPairs(rows);
    var ys := Counts(monthly);
    if rows == [] then
      Failure(EmptyTrainingSet)
    else if |rows| == 1 then
      assert rows == [rows[0]];
      SingleMonth(rows[0]);
      Success(GrowthReport(monthly, Mean(ys), Projection(ys)))
    else
      Success(GrowthReport(monthly, Mean(ys), Projection(ys)))
  }

  /** The average is the arithmetic mean of the counts: times the (non-zero)
      number of months it gives their total. */
  lemma MeanTimesCount(ys: seq<int>)
    requires ys != []
    ensures Mean(ys) * |ys| as real == SumY(ys)
  {
    MeanTimesCountOf(Mean(ys), |ys| as real, SumY(ys));
  }

  lemma MeanTimesCountOf(mean: real, n: real, sy: real)
    requires n > 0.0 && mean == MeanOf(n, sy)
    ensures mean * n == sy
  {
  }

  /** A single month: the dict is that row, the average is its count and the
      flat projection repeats it. */
  lemma SingleMonth(row: MonthRow)
    ensures PyDict.FromPairs([row]) == [row]
    ensures Counts([row]) == [row.1]
    ensures Mean([row.1]) == row.1 as real
    ensures Projection([row.1]) == row.1
  {
    assert PyDict.UniqueKeys([row]);
    PyDict.FromPairsOfUniqueKeys([row]);
    SingleCount(row.1);
    RoundOfLine(0, 1, row.1);
  }

  lemma SingleCount(y: int)
    ensures Slope([y]) == 0.0 && Intercept([y]) == y as real && Mean([y]) == y as real
  {
    var ys := [y];
    assert SumY(ys) == y as real by {
      assert Sum(1, (i: nat) => CountAt(ys, i)) == Sum(0, (i: nat) => CountAt(ys, i)) + CountAt(ys, 0);
    }
    assert SumX(1) == 0.0 && SumXX(1) == 0.0;
  }

  /** The growth projector with the neutral defaults for zero months: average
      0 and projection 0 (the case the average's own guard was written for). */
  function EmployeeGrowthOrDefault(rows: seq<MonthRow>): (r: GrowthReport)
    ensures rows == [] ==> r == GrowthReport([], 0.0, 0)
    ensures rows != [] ==> Success(r) == EmployeeGrowth(rows)
  {
    match EmployeeGrowth(rows)
    case Success(report) => report
    case Failure(_) => GrowthReport([], 0.0, 0)
  }

  /** As written, zero months make the projector fail although the average on
      its own is guarded to 0 for that case. */
  lemma EmptyMonthsFail()
    ensures EmployeeGrowth([]) == Failure(EmptyTrainingSet)
    ensures Mean(Counts(PyDict.FromPairs([]))) == 0.0
  {
  }

  /** Four months with 1, 2, 3 and 4 registrations: average 2.5, fitted slope 1
      and intercept 1, projection 5. */
  lemma FourMonthExample()
    ensures
      var rows := [("2024-01", 1), ("2024-02", 2), ("2024-03", 3), ("2024-04", 4)];
      var ys := Counts(rows);
      Slope(ys) == 1.0 && Intercept(ys) == 1.0 &&
      EmployeeGrowth(rows) == Success(GrowthReport(rows, 2.5, 5))
  {
    var rows: seq<MonthRow> := [("2024-01", 1), ("2024-02", 2), ("2024-03", 3), ("2024-04", 4)];
    FourMonthDict(rows);
    FourCounts(Counts(rows));
  }

  /** The four distinct month labels make a dict of the rows themselves. */
  lemma FourMonthDict(rows: seq<MonthRow>)
    requires rows == [("2024-01", 1), ("2024-02", 2), ("2024-03", 3), ("2024-04", 4)]
    ensures PyDict.FromPairs(rows) == rows && Counts(rows) == [1, 2, 3, 4]
  {
    assert PyDict.UniqueKeys(rows) by {
      forall i, j | 0 <= i < j < 4 ensures rows[i].0 != rows[j].0 {
        assert rows[i].0[6] != rows[j].0[6];
      }
    }
    PyDict.FromPairsOfUniqueKeys(rows);
  }

  lemma FourCounts(ys: seq<int>)
    requires ys == [1, 2, 3, 4]
    ensures Slope(ys) == 1.0 && Intercept(ys) == 1.0 && Projection(ys) == 5 && Mean(ys) == 2.5
  {
    assert OnLine(ys, 1.0, 1.0) by {
      forall i: nat | i < 4 ensures CountAt(ys, i) == Affine(1.0, i as real, 1.0) {
        assert ys[i] == i + 1;
      }
    }
    ExactLineFitted(ys, 1.0, 1.0);
    ExactLineProjected(ys, 1, 1);
    LineSumY(ys, 1.0, 1.0);
    SumXClosed(4);
    assert SumY(ys) == 10.0;
    assert MeanOf(4.0, 10.0) == 2.5;
  }
}
