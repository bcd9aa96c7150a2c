/**
  The reporting variant of the growth calculator: the running balance is kept
  unrounded, and each recorded balance is rounded to two decimals with
  round-half-away-from-zero.
 */
module CompoundingFunction {
  import opened Growth

  // ---------------------------------------------------------------------
  // Facts of real arithmetic with a positive scale. They are provable with
  // an empty body; they exist so that the rounding
  // proofs get each nonlinear step as a ground fact over plain reals.

  lemma DivThenMul(n: real, s: real)
    requires s > 0.0
    ensures (n / s) * s == n
  {
  }

  lemma DiffScaled(q: real, v: real, s: real)
    ensures (q - v) * s == q * s - v * s
  {
  }

  lemma CancelScale(a: real, b: real, s: real)
    requires s > 0.0 && a * s == b * s
    ensures a == b
  {
    assert (a * s) / s == a;
    assert (b * s) / s == b;
  }

  lemma MulMonotone(a: real, b: real, s: real)
    requires s > 0.0 && a <= b
    ensures a * s <= b * s
  {
  }

  lemma DivMonotone(a: real, b: real, s: real)
    requires s > 0.0 && a <= b
    ensures a / s <= b / s
  {
  }

  // ---------------------------------------------------------------------
  // Rounding

  /** 10 raised to `precision`; a negative precision gives 1/10, 1/100, ... */
  function Scale(precision: int): (s: real)
    ensures s > 0.0
  {
    if precision >= 0 then PowPositive(10.0, precision); Pow(10.0, precision)
    else PowPositive(10.0, -precision); 1.0 / Pow(10.0, -precision)
  }

  /**
    Go's math.Round on exact reals: the nearest integer, with halfway cases
    rounded away from zero.
   */
  function MathRound(x: real): (n: int)
    ensures -0.5 <= n as real - x <= 0.5
    ensures n as real - x == 0.5 ==> x > 0.0
    ensures n as real - x == -0.5 ==> x < 0.0
  {
    if x >= 0.0 then (x + 0.5).Floor else -((-x + 0.5).Floor)
  }

  /**
    `round(value, precision)`: `value * 10^precision` rounded to the nearest
    integer, halfway cases away from zero, and divided back by
    `10^precision`. RoundSteps and RoundNearest state what the result is.
   */
  function Round(value: real, precision: int): (r: real)
  {
    MathRound(value * Scale(precision)) as real / Scale(precision)
  }

  /**
    Round's definition as a lemma. It restates the body on purpose: callers
    that compare two Round terms use it to get the definition as a ground
    fact, which keeps the solver away from unfolding Floor on products.
   */
  lemma RoundUnfold(value: real, precision: int)
    ensures Round(value, precision) == MathRound(value * Scale(precision)) as real / Scale(precision)
  {
  }

  /**
    Round's result is a whole number of steps of 1/Scale(precision): the
    integer nearest to `value * Scale(precision)`.
   */
  lemma RoundSteps(value: real, precision: int)
    ensures Round(value, precision) * Scale(precision) == MathRound(value * Scale(precision)) as real
  {
    DivThenMul(MathRound(value * Scale(precision)) as real, Scale(precision));
  }

  /**
    Round's result lies within half a step of `value`, and a result exactly
    half a step away is on the far side from zero.
   */
  lemma RoundNearest(value: real, precision: int)
    ensures -0.5 <= (Round(value, precision) - value) * Scale(precision) <= 0.5
    ensures (Round(value, precision) - value) * Scale(precision) == 0.5 ==> value > 0.0
    ensures (Round(value, precision) - value) * Scale(precision) == -0.5 ==> value < 0.0
  {
    RoundSteps(value, precision);
    DiffScaled(Round(value, precision), value, Scale(precision));
  }

  /** The three properties of MathRound's contract single out its result. */
  lemma MathRoundUnique(x: real, m: int)
    requires -0.5 <= m as real - x <= 0.5
    requires m as real - x == 0.5 ==> x > 0.0
    requires m as real - x == -0.5 ==> x < 0.0
    ensures m == MathRound(x)
  {
  }

  /** Rounding half away from zero is symmetric about zero. */
  lemma MathRoundOdd(x: real)
    ensures MathRound(-x) == -MathRound(x)
  {
    MathRoundUnique(-x, -MathRound(x));
  }

  /** A larger argument never rounds to a smaller integer. */
  lemma MathRoundMonotone(x: real, y: real)
    requires x <= y
    ensures MathRound(x) <= MathRound(y)
  {
  }

  /**
    Round's contract singles out its result: a whole number `m` of steps
    within half a step of `value`, with ties away from zero, is Round's.
   */
  lemma RoundUnique(value: real, precision: int, q: real, m: int)
    requires q * Scale(precision) == m as real
    requires -0.5 <= (q - value) * Scale(precision) <= 0.5
    requires (q - value) * Scale(precision) == 0.5 ==> value > 0.0
    requires (q - value) * Scale(precision) == -0.5 ==> value < 0.0
    ensures q == Round(value, precision)
  {
    DiffScaled(q, value, Scale(precision));
    MathRoundUnique(value * Scale(precision), m);
    RoundSteps(value, precision);
    CancelScale(q, Round(value, precision), Scale(precision));
  }

  /** A value that is already a whole number `m` of steps is left unchanged. */
  lemma RoundExact(value: real, precision: int, m: int)
    requires value * Scale(precision) == m as real
    ensures Round(value, precision) == value
  {
    RoundUnique(value, precision, value, m);
  }

  /** Rounding twice is rounding once. */
  lemma RoundIdempotent(value: real, precision: int)
    ensures Round(Round(value, precision), precision) == Round(value, precision)
  {
    RoundSteps(value, precision);
    RoundExact(Round(value, precision), precision, MathRound(value * Scale(precision)));
  }

  /**
    Rounding already scaled values `x <= y` to whole numbers and dividing
    back by the positive scale `s` preserves order.
   */
  lemma StepsMonotone(x: real, y: real, s: real)
    requires s > 0.0 && x <= y
    ensures MathRound(x) as real / s <= MathRound(y) as real / s
  {
    MathRoundMonotone(x, y);
    DivMonotone(MathRound(x) as real, MathRound(y) as real, s);
  }

  /** Rounding preserves order. */
  lemma RoundMonotone(a: real, b: real, precision: int)
    requires a <= b
    ensures Round(a, precision) <= Round(b, precision)
  {
    MulMonotone(a, b, Scale(precision));
    StepsMonotone(a * Scale(precision), b * Scale(precision), Scale(precision));
    RoundUnfold(a, precision);
    RoundUnfold(b, precision);
  }

  /** Rounding commutes with negation. */
  lemma RoundOdd(value: real, precision: int)
    ensures Round(-value, precision) == -Round(value, precision)
  {
    MathRoundOdd(value * Scale(precision));
    RoundSteps(value, precision);
    RoundSteps(-value, precision);
    assert -value * Scale(precision) == -(value * Scale(precision));
    assert -Round(value, precision) * Scale(precision) == -(Round(value, precision) * Scale(precision));
    CancelScale(Round(-value, precision), -Round(value, precision), Scale(precision));
  }

  lemma ScaleTwo()
    ensures Scale(2) == 100.0
  {
    assert Pow(10.0, 2) == 10.0 * Pow(10.0, 1);
  }

  /** Rounding to cents moves a value by at most half a cent and lands on a whole cent. */
  lemma RoundToCents(value: real)
    ensures -0.005 <= Round(value, 2) - value <= 0.005
    ensures (Round(value, 2) * 100.0).Floor as real == Round(value, 2) * 100.0
  {
    ScaleTwo();
    RoundSteps(value, 2);
    RoundNearest(value, 2);
  }

  // ---------------------------------------------------------------------
  // The growth loop

  /**
    Fills a fresh array of `years` recorded balances. The running balance
    itself is never rounded; only the recorded copy is, so element `k` is the
    raw variant's element `k` rounded to cents.
   */
  method CalculateCompoundInterest(principal: real, annualRate: real, years: int)
    returns (gainsPerYear: array<real>)
    requires years >= 0
    ensures fresh(gainsPerYear)
    ensures gainsPerYear.Length == years
    ensures forall k :: 0 <= k < years ==>
      gainsPerYear[k] == Round(Compounded(principal, annualRate, years)[k], 2)
    ensures forall k :: 0 <= k < years ==>
      gainsPerYear[k] == Round(Balance(principal, annualRate, k + 1), 2)
  {
    var rateDecimal := annualRate / 100.0;
    gainsPerYear := new real[years];
    var balance := principal;
    var year := 1;
    while year <= years
      invariant 1 <= year <= years + 1
      invariant balance == Balance(principal, annualRate, year - 1)
      invariant forall k :: 0 <= k < year - 1 ==> gainsPerYear[k] == Round(Balance(principal, annualRate, k + 1), 2)
    {
      BalanceStep(principal, annualRate, year - 1);
      balance := balance * (1.0 + rateDecimal);
      gainsPerYear[year - 1] := Round(balance, 2);
      year := year + 1;
    }
    forall k | 0 <= k < years
      ensures gainsPerYear[k] == Round(Compounded(principal, annualRate, years)[k], 2)
    {
      CompoundedClosedForm(principal, annualRate, years, k);
    }
  }

  // ---------------------------------------------------------------------
  // Properties of the recorded balances

  /** A non-negative principal at a non-negative rate never reports a smaller balance. */
  lemma GainsNonDecreasing(principal: real, annualRate: real, years: nat)
    requires principal >= 0.0 && annualRate >= 0.0
    ensures forall i, j :: 0 <= i <= j < years ==>
      Round(Compounded(principal, annualRate, years)[i], 2) <= Round(Compounded(principal, annualRate, years)[j], 2)
  {
    CompoundedNonDecreasing(principal, annualRate, years);
    forall i, j | 0 <= i <= j < years
      ensures Round(Compounded(principal, annualRate, years)[i], 2) <= Round(Compounded(principal, annualRate, years)[j], 2)
    {
      RoundMonotone(Compounded(principal, annualRate, years)[i], Compounded(principal, annualRate, years)[j], 2);
    }
  }

  /** A non-negative principal at a rate between -100% and 0 never reports a larger balance. */
  lemma GainsNonIncreasing(principal: real, annualRate: real, years: nat)
    requires principal >= 0.0 && -100.0 <= annualRate <= 0.0
    ensures forall i, j :: 0 <= i <= j < years ==>
      Round(Compounded(principal, annualRate, years)[i], 2) >= Round(Compounded(principal, annualRate, years)[j], 2)
  {
    CompoundedNonIncreasing(principal, annualRate, years);
    forall i, j | 0 <= i <= j < years
      ensures Round(Compounded(principal, annualRate, years)[i], 2) >= Round(Compounded(principal, annualRate, years)[j], 2)
    {
      RoundMonotone(Compounded(principal, annualRate, years)[j], Compounded(principal, annualRate, years)[i], 2);
    }
  }

  /**
    Below -100% the reported balances can change sign and rise: 1 at -200%
    reports -1 and then 1.
   */
  lemma GainsBelowTotalLoss()
    ensures Round(Compounded(1.0, -200.0, 2)[0], 2) == -1.0
    ensures Round(Compounded(1.0, -200.0, 2)[1], 2) == 1.0
  {
    CompoundedBelowTotalLoss();
    ScaleTwo();
    RoundExact(-1.0, 2, -100);
    RoundExact(1.0, 2, 100);
  }

  /**
    Balances under half a cent are reported as 0, so the sign change below
    -100% can vanish: 0.004 at -200% has raw balances -0.004 and 0.004, and
    both are reported as 0.
   */
  lemma GainsBelowHalfCent()
    ensures Compounded(0.004, -200.0, 2) == [-0.004, 0.004]
    ensures Round(Compounded(0.004, -200.0, 2)[0], 2) == 0.0
    ensures Round(Compounded(0.004, -200.0, 2)[1], 2) == 0.0
  {
    assert Compounded(-0.004, -200.0, 1) == [0.004] + Compounded(0.004, -200.0, 0);
    ScaleTwo();
    RoundUnique(-0.004, 2, 0.0, 0);
    RoundUnique(0.004, 2, 0.0, 0);
  }

  /**
    Rounding loses the strict growth of the raw balances: 1 at 0.01% for two
    years grows to 1.0001 and then 1.00020001, and both are reported as 1.
   */
  lemma GainsNotStrictlyIncreasing()
    ensures Compounded(1.0, 0.01, 2)[0] < Compounded(1.0, 0.01, 2)[1]
    ensures Round(Compounded(1.0, 0.01, 2)[0], 2) == Round(Compounded(1.0, 0.01, 2)[1], 2) == 1.0
  {
    assert Compounded(1.0, 0.01, 2) == [1.0001, 1.00020001] by {
      assert Compounded(1.0001, 0.01, 1) == [1.00020001] + Compounded(1.00020001, 0.01, 0);
    }
    ScaleTwo();
    RoundUnique(1.0001, 2, 1.0, 100);
    RoundUnique(1.00020001, 2, 1.0, 100);
  }

  /** With a zero rate every reported balance is the principal rounded to cents. */
  lemma GainsZeroRate(principal: real, years: nat)
    ensures forall k :: 0 <= k < years ==> Round(Compounded(principal, 0.0, years)[k], 2) == Round(principal, 2)
  {
    CompoundedZeroRate(principal, years);
  }

  /** 100000000 at 10% for 10 years reports 259374246.01 in the last year. */
  lemma GainsTenYearsAtTenPercent()
    ensures Round(Compounded(100000000.0, 10.0, 10)[9], 2) == 259374246.01
  {
    TenYearsAtTenPercent();
    ScaleTwo();
    RoundExact(259374246.01, 2, 25937424601);
  }

  /** 500 at -10% for 2 years reports 450 and then 405. */
  lemma GainsTwoYearsAtMinusTenPercent()
    ensures Round(Compounded(500.0, -10.0, 2)[0], 2) == 450.0
    ensures Round(Compounded(500.0, -10.0, 2)[1], 2) == 405.0
  {
    assert Compounded(500.0, -10.0, 2) == [450.0, 405.0] by {
      assert Compounded(450.0, -10.0, 1) == [405.0] + Compounded(405.0, -10.0, 0);
    }
    ScaleTwo();
    RoundExact(450.0, 2, 45000);
    RoundExact(405.0, 2, 40500);
  }
}
