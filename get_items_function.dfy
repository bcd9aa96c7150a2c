/**
  The raw variant of the growth calculator: the balance after each year is
  recorded at full precision.
 */
module GetItemsFunction {
  import opened Growth

  /**
    Fills a fresh array of `years` balances. Element `year - 1` is the
    running balance after `year` years of `balance := balance * (1 + rate)`.
    A negative `years` makes the allocation panic in Go, so it is excluded
    here.
   */
  method CalculateCompoundInterest(principal: real, annualRate: real, years: int)
    returns (amountsPerYear: array<real>)
    requires years >= 0
    ensures fresh(amountsPerYear)
    ensures amountsPerYear.Length == years
    ensures amountsPerYear[..] == Compounded(principal, annualRate, years)
    ensures forall k :: 0 <= k < years ==> amountsPerYear[k] == Balance(principal, annualRate, k + 1)
  {
    var rateDecimal := annualRate / 100.0;
    amountsPerYear := new real[years];
    var balance := principal;
    var year := 1;
    while year <= years
      invariant 1 <= year <= years + 1
      invariant balance == Balance(principal, annualRate, year - 1)
      invariant forall k :: 0 <= k < year - 1 ==> amountsPerYear[k] == Balance(principal, annualRate, k + 1)
    {
      BalanceStep(principal, annualRate, year - 1);
      balance := balance * (1.0 + rateDecimal);
      amountsPerYear[year - 1] := balance;
      year := year + 1;
    }
    forall k | 0 <= k < years
      ensures amountsPerYear[..][k] == Compounded(principal, annualRate, years)[k]
    {
      CompoundedClosedForm(principal, annualRate, years, k);
    }
  }
}
