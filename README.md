# Compound-growth calculator, modelled in Dafny

The repository computes year-by-year compound growth. It takes a principal,
an annual rate given as a percentage, and a number of years, and returns one
balance per year. There are two copies of `CalculateCompoundInterest`:

- the **raw variant** (`infra/serverless/functions/GetItemsFunction`) records
  each year's balance at full precision;
- the **reporting variant** (`infra/serverless/functions/CompoundingFunction`)
  records each year's balance rounded to cents by `round(value, 2)`. It rounds
  half away from zero, as Go's `math.Round` does.

Both loops keep an unrounded running balance. Each year they multiply it by
`1 + annualRate/100` and store it (or its rounded copy) into a slice that was
allocated with `years` elements.

The project has three modules:

- `Growth` (`growth.dfy`) holds the arithmetic both variants share:
  - `Pow` and `Factor`;
  - `Balance`, the closed form `principal * Factor(annualRate)^years`;
  - `Compounded`, the year-by-year recurrence as a recursive function;
  - the lemmas that connect the two and state the shape of the sequence.
- `GetItemsFunction` (`get_items_function.dfy`) is the raw loop. It is a
  method that fills a fresh `array<real>`, with loop invariants. It is proved
  equal to `Compounded` and to the closed form.
- `CompoundingFunction` (`compounding_function.dfy`) holds:
  - `round`, modelled as `Scale`, `MathRound` and `Round`, with lemmas;
  - the reporting loop, a method filling a fresh array;
  - lemmas about the rounded balances, including the repository's own test case.

Go's `float64` is modelled as Dafny's exact `real`. This is an idealisation:
the model has no accumulation error, no overflow to infinity and no NaN.
Under it, the test's expectation `100000000 * 1.1^10 = 259374246.01` holds
exactly.

Neither loop compounds on rounded balances. `CompoundingFunction` rounds only
the copy it records (`compoundInterest.go:15-16`): the next year multiplies
the unrounded balance.

## Model

| member | source | states |
|---|---|---|
| `Growth.Factor` | infra/serverless/functions/GetItemsFunction/compoundInterest.go:4-8 | the yearly factor `1 + rate/100` is above 1 exactly when the rate is positive, below 1 exactly when it is negative, and positive exactly when the rate is above -100 |
| `Growth.Compounded` | infra/serverless/functions/GetItemsFunction/compoundInterest.go:5-10 | the recurrence yields exactly `years` balances, so 0 years gives an empty sequence |
| `Growth.CompoundedClosedForm` | infra/serverless/functions/GetItemsFunction/compoundInterest.go:4-10 | element `k` of the recurrence equals `principal * (1 + rate/100)^(k+1)` |
| `Growth.CompoundedRecurrence` | infra/serverless/functions/GetItemsFunction/compoundInterest.go:7-10 | element 0 is the principal times the factor, and each later element is its predecessor times the factor |
| `Growth.CompoundedZeroRate` | infra/serverless/functions/GetItemsFunction/compoundInterest.go:4-9 | at a 0% rate every element equals the principal |
| `Growth.CompoundedTotalLoss` | infra/serverless/functions/GetItemsFunction/compoundInterest.go:4-9 | at a -100% rate every element is 0 |
| `Growth.CompoundedAlternates` | infra/serverless/functions/GetItemsFunction/compoundInterest.go:4-9 | for a non-zero principal at a rate below -100% the balance changes sign every year: every two consecutive balances have opposite signs (one positive, the other negative) |
| `Growth.SignChangeAt` | infra/serverless/functions/GetItemsFunction/compoundInterest.go:8 | one year of the same fact: below -100%, the balances after years `i+1` and `i+2` of a non-zero principal have opposite signs |
| `Growth.CompoundedBelowTotalLoss` | infra/serverless/functions/GetItemsFunction/compoundInterest.go:4-9 | for example, 1 at -200% for 2 years gives -1 and then 1 |
| `Growth.CompoundedStrictlyIncreasing` | infra/serverless/functions/GetItemsFunction/compoundInterest.go:8 | a positive principal at a positive rate gives a strictly increasing sequence |
| `Growth.CompoundedStrictlyDecreasing` | infra/serverless/functions/GetItemsFunction/compoundInterest.go:8 | a positive principal at a rate strictly between -100% and 0 gives a strictly decreasing sequence |
| `Growth.CompoundedNonDecreasing` | infra/serverless/functions/GetItemsFunction/compoundInterest.go:8 | a non-negative principal at a non-negative rate gives a non-decreasing sequence |
| `Growth.CompoundedNonIncreasing` | infra/serverless/functions/GetItemsFunction/compoundInterest.go:8 | a non-negative principal at a rate between -100% and 0 gives a non-increasing sequence |
| `Growth.BalanceStrict` | infra/serverless/functions/GetItemsFunction/compoundInterest.go:8 | with a positive principal, more years give a strictly larger balance at a positive rate and a strictly smaller one at a rate in (-100%, 0) |
| `Growth.BalanceMonotone` | infra/serverless/functions/GetItemsFunction/compoundInterest.go:8 | with a non-negative principal and rate, more years never give a smaller balance |
| `Growth.BalanceAntitone` | infra/serverless/functions/GetItemsFunction/compoundInterest.go:8 | with a non-negative principal and a rate in [-100%, 0], more years never give a larger balance |
| `Growth.TenYearsAtTenPercent` | infra/serverless/functions/CompoundingFunction/compoundingInterest_test.go:15-24 | 100000000 at 10% for 10 years has 259374246.01 as its last unrounded balance |
| `GetItemsFunction.CalculateCompoundInterest` | infra/serverless/functions/GetItemsFunction/compoundInterest.go:3-13 | the loop returns a fresh array of exactly `years` elements, equal to the recurrence `Compounded`, whose element `k` is the balance after `k+1` years |
| `CompoundingFunction.Scale` | infra/serverless/functions/CompoundingFunction/compoundInterest.go:6 | `10^precision` is positive for every precision, so dividing by it is defined |
| `CompoundingFunction.MathRound` | infra/serverless/functions/CompoundingFunction/compoundInterest.go:7 | `math.Round` gives an integer within 1/2 of its argument; an exact half rounds up only for positive arguments and down only for negative ones (away from zero) |
| `CompoundingFunction.MathRoundUnique` | infra/serverless/functions/CompoundingFunction/compoundInterest.go:7 | only one integer has MathRound's three properties, so its contract fully determines `math.Round` |
| `CompoundingFunction.MathRoundOdd` | infra/serverless/functions/CompoundingFunction/compoundInterest.go:7 | rounding half away from zero is symmetric: `MathRound(-x) == -MathRound(x)` |
| `CompoundingFunction.MathRoundMonotone` | infra/serverless/functions/CompoundingFunction/compoundInterest.go:7 | `math.Round` preserves order |
| `CompoundingFunction.Round` | infra/serverless/functions/CompoundingFunction/compoundInterest.go:5-8 | `round(value, precision)` itself. It has no contract of its own: `RoundSteps`, `RoundNearest` and `RoundUnique` are its specification |
| `CompoundingFunction.RoundSteps` | infra/serverless/functions/CompoundingFunction/compoundInterest.go:5-8 | `round(v, p) * 10^p` is the integer nearest to `v * 10^p` |
| `CompoundingFunction.RoundNearest` | infra/serverless/functions/CompoundingFunction/compoundInterest.go:5-8 | `round(v, p)` lies within half a step (`1/(2*10^p)`) of `v`; an exact tie rounds away from zero |
| `CompoundingFunction.RoundUnique` | infra/serverless/functions/CompoundingFunction/compoundInterest.go:5-8 | any whole number of steps within half a step of `v`, with ties away from zero, is `round(v, p)` |
| `CompoundingFunction.RoundExact` | infra/serverless/functions/CompoundingFunction/compoundInterest.go:5-8 | a value that is already a whole number of steps is returned unchanged |
| `CompoundingFunction.RoundIdempotent` | infra/serverless/functions/CompoundingFunction/compoundInterest.go:5-8 | `round(round(v, p), p) == round(v, p)` |
| `CompoundingFunction.StepsMonotone` | infra/serverless/functions/CompoundingFunction/compoundInterest.go:7 | for already scaled values `x <= y` and a positive scale `s`, `math.Round(x)/s <= math.Round(y)/s` |
| `CompoundingFunction.RoundMonotone` | infra/serverless/functions/CompoundingFunction/compoundInterest.go:5-8 | `a <= b` implies `round(a, p) <= round(b, p)` |
| `CompoundingFunction.RoundOdd` | infra/serverless/functions/CompoundingFunction/compoundInterest.go:5-8 | `round(-v, p) == -round(v, p)` |
| `CompoundingFunction.RoundToCents` | infra/serverless/functions/CompoundingFunction/compoundInterest.go:5-8 | `round(v, 2)` is within 1/200 of `v` and `round(v, 2) * 100` is an integer |
| `CompoundingFunction.CalculateCompoundInterest` | infra/serverless/functions/CompoundingFunction/compoundInterest.go:10-20 | the loop returns a fresh array of exactly `years` elements; element `k` is the raw variant's element `k` rounded to cents, i.e. `round(principal * (1 + rate/100)^(k+1), 2)`, because the accumulator itself is never rounded |
| `CompoundingFunction.GainsNonDecreasing` | infra/serverless/functions/CompoundingFunction/compoundInterest.go:14-17 | with a non-negative principal and rate, the reported balances never decrease |
| `CompoundingFunction.GainsNonIncreasing` | infra/serverless/functions/CompoundingFunction/compoundInterest.go:14-17 | with a non-negative principal and a rate between -100% and 0, the reported balances never increase |
| `CompoundingFunction.GainsBelowTotalLoss` | infra/serverless/functions/CompoundingFunction/compoundInterest.go:10-20 | below -100% the reported balances can change sign and rise: 1 at -200% for 2 years reports -1 and then 1 |
| `CompoundingFunction.GainsBelowHalfCent` | infra/serverless/functions/CompoundingFunction/compoundInterest.go:10-20 | balances under half a cent are reported as 0, so the sign change can vanish: 0.004 at -200% for 2 years has raw balances -0.004 and 0.004 and reports 0 twice |
| `CompoundingFunction.GainsNotStrictlyIncreasing` | infra/serverless/functions/CompoundingFunction/compoundInterest.go:14-17 | rounding loses strict growth: 1 at 0.01% for 2 years has raw balances 1.0001 < 1.00020001, and both are reported as 1 |
| `CompoundingFunction.GainsZeroRate` | infra/serverless/functions/CompoundingFunction/compoundInterest.go:11-16 | at a 0% rate every reported balance is `round(principal, 2)` |
| `CompoundingFunction.GainsTenYearsAtTenPercent` | infra/serverless/functions/CompoundingFunction/compoundingInterest_test.go:15-24 | the repository's test case: 100000000 at 10% for 10 years reports 259374246.01 in the last year |
| `CompoundingFunction.GainsTwoYearsAtMinusTenPercent` | infra/serverless/functions/CompoundingFunction/compoundInterest.go:10-20 | 500 at -10% for 2 years reports 450 and then 405 |

## Left out

- The Lambda handler in `infra/serverless/functions/CompoundingFunction/main.go` is not modelled. It decodes the JSON request, calls the reporting variant and builds the API Gateway response.
- The Lambda handler in `infra/serverless/functions/GetItemsFunction/main.go` (`HelloHandler`, lines 50-59) is not modelled. It returns a fixed "Hello, World!" response and never calls `CalculateCompoundInterest`, so the raw variant has no caller in the repository.
- `backend/functions/GetItemsFunction/main.go` is not modelled. It is a DynamoDB table scan with environment configuration, i.e. network I/O.
- `backend/service/compoundingService.go` is not modelled. It is an HTTP server, CORS headers and reading a JSON file from disk.
- IEEE-754 `float64` behaviour is not modelled: inexact accumulation, inexact `math.Pow`, overflow to infinity and NaN propagation. All arithmetic is exact `real`.
- Growth.CompoundedStrictlyDecreasing: promises a decline only for rates strictly between -100% and 0. Below -100% the factor `1 + rate/100` is negative and a non-zero balance changes sign every year (`Growth.CompoundedAlternates`). At exactly -100% the balance drops to 0 and stays there (`Growth.CompoundedTotalLoss`), so the decline is not strict.
- CompoundingFunction.GainsNonIncreasing: promises a non-increasing report only for rates in [-100%, 0]. Below -100% the reported balances can change sign and rise, e.g. 1 at -200% reports -1 and then 1 (`CompoundingFunction.GainsBelowTotalLoss`); balances under half a cent report 0 (`CompoundingFunction.GainsBelowHalfCent`).
- GetItemsFunction.CalculateCompoundInterest: requires `years >= 0`. In Go, `make` panics for a negative length, and that panic is not modelled.
- CompoundingFunction.CalculateCompoundInterest: requires `years >= 0`, for the same reason.
- The copy of `round` in `infra/serverless/functions/CompoundingFunction/compoundingInterest_test.go:9-12` is identical to the core `round`. It is used only as evidence for the test-case lemmas.
- Both methods return an array that nothing else aliases, as `make` does. Later mutation of the returned slice by callers is outside the model.
