/**
  The arithmetic of year-by-year compound growth, shared by both variants of
  CalculateCompoundInterest.

  Go's float64 is modelled by Dafny's exact `real`. This is an idealisation:
  the model has no rounding error in the accumulation, no overflow to
  infinity and no NaN.
 */
module Growth {

  /** x raised to the natural power n. */
  function Pow(x: real, n: nat): (r: real)
  {
    if n == 0 then 1.0 else x * Pow(x, n - 1)
  }

  /** The yearly growth factor `1 + annualRate/100` (the rate is a percentage). */
  function Factor(annualRate: real): (f: real)
    ensures annualRate > 0.0 <==> f > 1.0
    ensures annualRate < 0.0 <==> f < 1.0
    ensures annualRate > -100.0 <==> f > 0.0
  {
    1.0 + annualRate / 100.0
  }

  /** Closed form: the balance after `years` years of compounding. */
  function Balance(principal: real, annualRate: real, years: nat): (b: real)
  {
    principal * Pow(Factor(annualRate), years)
  }

  /**
    The balances after years 1, 2, ..., `years`, computed as Go's loop does: multiply the running balance by the
    factor, record it, and carry the new balance into the next year.
   */
  function Compounded(principal: real, annualRate: real, years: nat): (s: seq<real>)
    ensures |s| == years
    decreases years
  {
    if years == 0 then []
    else
      var next := principal * Factor(annualRate);
      [next] + Compounded(next, annualRate, years - 1)
  }

  // ---------------------------------------------------------------------
  // Facts of real arithmetic. Each is provable with an empty body; they exist
  // so that callers get the nonlinear step as a ground fact over plain reals.

  lemma MulPositive(a: real, b: real)
    requires a > 0.0 && b > 0.0
    ensures a * b > 0.0
  {
  }

  lemma ScaleLess(p: real, a: real, b: real)
    requires p > 0.0 && a < b
    ensures p * a < p * b
  {
    MulPositive(p, b - a);
  }

  lemma ScaleAtMost(p: real, a: real, b: real)
    requires p >= 0.0 && a <= b
    ensures p * a <= p * b
  {
  }

  lemma MulAtMost(x: real, q: real)
    requires 0.0 <= x <= 1.0 && q >= 0.0
    ensures x * q <= q
  {
  }

  lemma MulNonZero(a: real, b: real)
    requires a != 0.0 && b != 0.0
    ensures a * b != 0.0
  {
  }

  /** One of `a` and `b` is positive and the other negative. */
  predicate OppositeSigns(a: real, b: real)
  {
    (a > 0.0 && b < 0.0) || (a < 0.0 && b > 0.0)
  }

  lemma SignChange(c: real, d: real, f: real)
    requires c != 0.0 && f < 0.0 && d == c * f
    ensures OppositeSigns(c, d)
  {
    if c > 0.0 {
      assert c * f < 0.0;
    } else {
      assert c * f > 0.0;
    }
  }

  // ---------------------------------------------------------------------
  // Powers

  lemma PowStep(x: real, n: nat)
    ensures Pow(x, n + 1) == Pow(x, n) * x
  {
  }

  lemma {:induction false} PowPositive(x: real, n: nat)
    requires x > 0.0
    ensures Pow(x, n) > 0.0
  {
    if n > 0 {
      PowPositive(x, n - 1);
    }
  }

  lemma {:induction false} PowOfOne(n: nat)
    ensures Pow(1.0, n) == 1.0
  {
    if n > 0 {
      PowOfOne(n - 1);
    }
  }

  lemma PowOfZero(n: nat)
    requires n >= 1
    ensures Pow(0.0, n) == 0.0
  {
  }

  /** For x > 1 the powers grow strictly; for 0 < x < 1 they shrink strictly. */
  lemma {:induction false} PowStrict(x: real, j: nat, k: nat)
    requires x > 0.0 && j < k
    ensures x > 1.0 ==> Pow(x, j) < Pow(x, k)
    ensures x < 1.0 ==> Pow(x, j) > Pow(x, k)
    decreases k
  {
    var p := Pow(x, k - 1);
    PowPositive(x, k - 1);
    var d := Pow(x, k) - p;
    assert d == p * (x - 1.0);
    if x > 1.0 {
      MulPositive(p, x - 1.0);
    } else if x < 1.0 {
      MulPositive(p, 1.0 - x);
    }
    if j < k - 1 {
      PowStrict(x, j, k - 1);
    }
  }

  /** For x >= 1 the powers never decrease. */
  lemma {:induction false} PowMonotone(x: real, j: nat, k: nat)
    requires x >= 1.0 && j <= k
    ensures Pow(x, j) <= Pow(x, k)
  {
    if j < k {
      PowMonotone(x, j, k - 1);
      PowPositive(x, k - 1);
    }
  }

  lemma {:induction false} PowNonZero(x: real, n: nat)
    requires x != 0.0
    ensures Pow(x, n) != 0.0
  {
    if n > 0 {
      PowNonZero(x, n - 1);
      MulNonZero(x, Pow(x, n - 1));
    }
  }

  lemma {:induction false} PowNonNegative(x: real, n: nat)
    requires x >= 0.0
    ensures Pow(x, n) >= 0.0
  {
    if n > 0 {
      PowNonNegative(x, n - 1);
      ScaleAtMost(x, 0.0, Pow(x, n - 1));
    }
  }

  /** For 0 <= x <= 1 the powers never increase. */
  lemma {:induction false} PowAntitone(x: real, j: nat, k: nat)
    requires 0.0 <= x <= 1.0 && j <= k
    ensures Pow(x, j) >= Pow(x, k)
    decreases k
  {
    if j < k {
      PowAntitone(x, j, k - 1);
      PowNonNegative(x, k - 1);
      MulAtMost(x, Pow(x, k - 1));
    }
  }

  // ---------------------------------------------------------------------
  // The balance

  /** One more year multiplies the balance by the factor. */
  lemma BalanceStep(principal: real, annualRate: real, years: nat)
    ensures Balance(principal, annualRate, years + 1) == Balance(principal, annualRate, years) * Factor(annualRate)
  {
    PowStep(Factor(annualRate), years);
  }

  /** Starting one year later from the grown principal is the same as growing one more year. */
  lemma ShiftedBalance(principal: real, annualRate: real, years: nat)
    ensures Balance(principal * Factor(annualRate), annualRate, years) == Balance(principal, annualRate, years + 1)
  {
    var f := Factor(annualRate);
    calc {
      Balance(principal * f, annualRate, years);
      (principal * f) * Pow(f, years);
      principal * (f * Pow(f, years));
      principal * Pow(f, years + 1);
    }
  }

  /** A positive principal: more years mean more money at a positive rate, less at a rate in (-100, 0). */
  lemma BalanceStrict(principal: real, annualRate: real, j: nat, k: nat)
    requires principal > 0.0 && annualRate > -100.0 && j < k
    ensures annualRate > 0.0 ==> Balance(principal, annualRate, j) < Balance(principal, annualRate, k)
    ensures annualRate < 0.0 ==> Balance(principal, annualRate, j) > Balance(principal, annualRate, k)
  {
    var f := Factor(annualRate);
    PowStrict(f, j, k);
    if annualRate > 0.0 {
      ScaleLess(principal, Pow(f, j), Pow(f, k));
    } else if annualRate < 0.0 {
      ScaleLess(principal, Pow(f, k), Pow(f, j));
    }
  }

  /** A non-negative principal never shrinks under a non-negative rate. */
  lemma BalanceMonotone(principal: real, annualRate: real, j: nat, k: nat)
    requires principal >= 0.0 && annualRate >= 0.0 && j <= k
    ensures Balance(principal, annualRate, j) <= Balance(principal, annualRate, k)
  {
    var f := Factor(annualRate);
    PowMonotone(f, j, k);
    ScaleAtMost(principal, Pow(f, j), Pow(f, k));
  }

  /** A non-negative principal never grows under a rate in [-100, 0]. */
  lemma BalanceAntitone(principal: real, annualRate: real, j: nat, k: nat)
    requires principal >= 0.0 && -100.0 <= annualRate <= 0.0 && j <= k
    ensures Balance(principal, annualRate, j) >= Balance(principal, annualRate, k)
  {
    var f := Factor(annualRate);
    PowAntitone(f, j, k);
    ScaleAtMost(principal, Pow(f, k), Pow(f, j));
  }

  // ---------------------------------------------------------------------
  // The recurrence and its closed form

  /** Element k of the recurrence is the balance after k + 1 years. */
  lemma {:induction false} CompoundedClosedForm(principal: real, annualRate: real, years: nat, k: nat)
    requires k < years
    ensures Compounded(principal, annualRate, years)[k] == Balance(principal, annualRate, k + 1)
    decreases k
  {
    var next := principal * Factor(annualRate);
    if k == 0 {
      calc {
        Balance(principal, annualRate, 1);
        principal * Pow(Factor(annualRate), 1);
        { assert Pow(Factor(annualRate), 1) == Factor(annualRate) * Pow(Factor(annualRate), 0); }
        next;
      }
    } else {
      CompoundedClosedForm(next, annualRate, years - 1, k - 1);
      ShiftedBalance(principal, annualRate, k);
    }
  }

  /**
    The first element is the principal grown once, and every later element is
    its predecessor grown once.
   */
  lemma CompoundedRecurrence(principal: real, annualRate: real, years: nat)
    ensures years > 0 ==> Compounded(principal, annualRate, years)[0] == principal * Factor(annualRate)
    ensures forall i :: 0 < i < years ==>
      Compounded(principal, annualRate, years)[i] == Compounded(principal, annualRate, years)[i - 1] * Factor(annualRate)
  {
    forall i | 0 < i < years
      ensures Compounded(principal, annualRate, years)[i] == Compounded(principal, annualRate, years)[i - 1] * Factor(annualRate)
    {
      CompoundedClosedForm(principal, annualRate, years, i);
      CompoundedClosedForm(principal, annualRate, years, i - 1);
      BalanceStep(principal, annualRate, i);
    }
  }

  /** With a zero rate every year's balance is the principal. */
  lemma CompoundedZeroRate(principal: real, years: nat)
    ensures forall k :: 0 <= k < years ==> Compounded(principal, 0.0, years)[k] == principal
  {
    forall k | 0 <= k < years
      ensures Compounded(principal, 0.0, years)[k] == principal
    {
      CompoundedClosedForm(principal, 0.0, years, k);
      PowOfOne(k + 1);
    }
  }

  /** With a rate of -100% everything is lost in the first year and stays lost. */
  lemma CompoundedTotalLoss(principal: real, years: nat)
    ensures forall k :: 0 <= k < years ==> Compounded(principal, -100.0, years)[k] == 0.0
  {
    forall k | 0 <= k < years
      ensures Compounded(principal, -100.0, years)[k] == 0.0
    {
      CompoundedClosedForm(principal, -100.0, years, k);
      PowOfZero(k + 1);
    }
  }

  /**
    Below -100% the factor is negative, so a non-zero balance changes sign
    every year: each pair of consecutive balances has a negative product.
   */
  lemma CompoundedAlternates(principal: real, annualRate: real, years: nat)
    requires principal != 0.0 && annualRate < -100.0
    ensures forall i :: 0 <= i < years - 1 ==>
      OppositeSigns(Compounded(principal, annualRate, years)[i], Compounded(principal, annualRate, years)[i + 1])
  {
    forall i | 0 <= i < years - 1
      ensures OppositeSigns(Compounded(principal, annualRate, years)[i], Compounded(principal, annualRate, years)[i + 1])
    {
      SignChangeAt(principal, annualRate, years, i);
    }
  }

  lemma SignChangeAt(principal: real, annualRate: real, years: nat, i: nat)
    requires principal != 0.0 && annualRate < -100.0 && i + 1 < years
    ensures OppositeSigns(Compounded(principal, annualRate, years)[i], Compounded(principal, annualRate, years)[i + 1])
  {
    CompoundedRecurrence(principal, annualRate, years);
    CompoundedClosedForm(principal, annualRate, years, i);
    PowNonZero(Factor(annualRate), i + 1);
    MulNonZero(principal, Pow(Factor(annualRate), i + 1));
    SignChange(Compounded(principal, annualRate, years)[i], Compounded(principal, annualRate, years)[i + 1], Factor(annualRate));
  }

  /** For example, 1 at -200% becomes -1 and then 1, so the sequence does not decline. */
  lemma CompoundedBelowTotalLoss()
    ensures Compounded(1.0, -200.0, 2) == [-1.0, 1.0]
  {
    assert Compounded(-1.0, -200.0, 1) == [1.0] + Compounded(1.0, -200.0, 0);
  }

  /** A positive principal grows strictly under a positive rate. */
  lemma CompoundedStrictlyIncreasing(principal: real, annualRate: real, years: nat)
    requires principal > 0.0 && annualRate > 0.0
    ensures forall i, j :: 0 <= i < j < years ==>
      Compounded(principal, annualRate, years)[i] < Compounded(principal, annualRate, years)[j]
  {
    forall i, j | 0 <= i < j < years
      ensures Compounded(principal, annualRate, years)[i] < Compounded(principal, annualRate, years)[j]
    {
      CompoundedClosedForm(principal, annualRate, years, i);
      CompoundedClosedForm(principal, annualRate, years, j);
      BalanceStrict(principal, annualRate, i + 1, j + 1);
    }
  }

  /** A positive principal shrinks strictly under a rate between -100% and 0. */
  lemma CompoundedStrictlyDecreasing(principal: real, annualRate: real, years: nat)
    requires principal > 0.0 && -100.0 < annualRate < 0.0
    ensures forall i, j :: 0 <= i < j < years ==>
      Compounded(principal, annualRate, years)[i] > Compounded(principal, annualRate, years)[j]
  {
    forall i, j | 0 <= i < j < years
      ensures Compounded(principal, annualRate, years)[i] > Compounded(principal, annualRate, years)[j]
    {
      CompoundedClosedForm(principal, annualRate, years, i);
      CompoundedClosedForm(principal, annualRate, years, j);
      BalanceStrict(principal, annualRate, i + 1, j + 1);
    }
  }

  /** A non-negative principal never shrinks under a non-negative rate. */
  lemma CompoundedNonDecreasing(principal: real, annualRate: real, years: nat)
    requires principal >= 0.0 && annualRate >= 0.0
    ensures forall i, j :: 0 <= i <= j < years ==>
      Compounded(principal, annualRate, years)[i] <= Compounded(principal, annualRate, years)[j]
  {
    forall i, j | 0 <= i <= j < years
      ensures Compounded(principal, annualRate, years)[i] <= Compounded(principal, annualRate, years)[j]
    {
      CompoundedClosedForm(principal, annualRate, years, i);
      CompoundedClosedForm(principal, annualRate, years, j);
      BalanceMonotone(principal, annualRate, i + 1, j + 1);
    }
  }

  /** A non-negative principal never grows under a rate between -100% and 0. */
  lemma CompoundedNonIncreasing(principal: real, annualRate: real, years: nat)
    requires principal >= 0.0 && -100.0 <= annualRate <= 0.0
    ensures forall i, j :: 0 <= i <= j < years ==>
      Compounded(principal, annualRate, years)[i] >= Compounded(principal, annualRate, years)[j]
  {
    forall i, j | 0 <= i <= j < years
      ensures Compounded(principal, annualRate, years)[i] >= Compounded(principal, annualRate, years)[j]
    {
      CompoundedClosedForm(principal, annualRate, years, i);
      CompoundedClosedForm(principal, annualRate, years, j);
      BalanceAntitone(principal, annualRate, i + 1, j + 1);
    }
  }

  /** 100000000 at 10% for 10 years ends at 259374246.01. */
  lemma TenYearsAtTenPercent()
    ensures Compounded(100000000.0, 10.0, 10)[9] == 259374246.01
  {
    CompoundedClosedForm(100000000.0, 10.0, 10, 9);
    assert Factor(10.0) == 1.1;
    assert Pow(1.1, 2) == 1.21;
    assert Pow(1.1, 4) == 1.4641 by { assert Pow(1.1, 3) == 1.331; }
    assert Pow(1.1, 6) == 1.771561 by { assert Pow(1.1, 5) == 1.61051; }
    assert Pow(1.1, 8) == 2.14358881 by { assert Pow(1.1, 7) == 1.9487171; }
    assert Pow(1.1, 10) == 2.5937424601 by { assert Pow(1.1, 9) == 2.357947691; }
  }
}
