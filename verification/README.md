# Retirement algorithms: a verified model

This project models the numeric engine of a retirement planner
(`Project/retirement_algorithms.py`) in Dafny, in the module
`RetirementAlgorithms` (`retirement_algorithms.dfy`). The engine has four
operations, and each one becomes a method with the same loop as the source:

- `FixedInvestor` (`fixedInvestor`) grows yearly contributions at a fixed rate
  with B(0) = 0 and B(t) = (B(t-1) + principal) * (1 + rate).
- `VariableInvestor` (`variableInvestor`) grows a principal through a list of
  yearly rates, in list order.
- `FinallyRetired` (`finallyRetired`) counts the years a fund covers a fixed
  yearly withdrawal. Each year it withdraws first and then grows the rest. The
  loop stops once the count passes the cap `YearCap` = 1000, so the largest
  count is 1001.
- `MaximumExpensed` (`maximumExpensed`) checks its arguments and then runs
  `Bisect`, its bisection loop, over [0, balance]. The loop uses
  `FinallyRetired` as its oracle, stops early on an exact year match and
  otherwise returns the midpoint of the final interval. The defaults are the
  source's: `targetYears := 20`, `epsilon := 0.01`, `maxIterations := 100`.

Amounts and rates are exact `real`s. A rate of -1.0 means total loss. Every
operation checks its arguments in the source's order. The first violated
condition comes back as `Err(InvalidArgument)` with one variant per
`ValueError` of the source, and no partial result is returned.

Each method is proved against a ghost specification function:
`FixedBalance`, `GrowthFactor`, `DepletionBalance` with `YearsSurvived`, and
for the search the interval predicate `Bracket`, the width function `Halved`
and the outcome predicate `SearchOutcome`. Lemmas state what the source promises about
those functions. Four of them carry the main results:

- the closed form of the contribution recurrence;
- the exact characterisation of the depletion count;
- the monotonicity of the count in the withdrawal, which the bisection relies on;
- the fact that every withdrawal meeting the target exactly lies inside the
  final bisection interval.

Where the doc comments and the code disagree, the model follows the code:

- `retirement_algorithms.py:51-52` gives `fixedInvestor(7500, 0.05, 3)` as
  23643.75. The loop at lines 79-82 computes 24825.9375 (`FixedExample`).
- `retirement_algorithms.py:188-189` gives 13 years for
  `finallyRetired(100000, 10000, 0.03)`. The loop at lines 217-230 gives 11
  (`DepletionExample`).
- The comment at line 160 says the loop ends when B(t) <= 0. The loop guard at
  line 217 is `current_balance >= expense`, and the model uses the guard.

## Model

| member | source | states |
|---|---|---|
| RetirementAlgorithms.FixedBalance | Project/retirement_algorithms.py:79-82 | the contribution recurrence B(0) = 0, B(t) = (B(t-1) + principal) * (1 + rate), as the loop applies it |
| RetirementAlgorithms.FixedInvestor | Project/retirement_algorithms.py:60-84 | negative principal, rate below -1 and negative years are rejected in that order; 0 years gives exactly 0; otherwise the result is B(years) of the contribution recurrence |
| RetirementAlgorithms.FixedBalanceNonNegative | Project/retirement_algorithms.py:79-84 | with principal >= 0 and rate >= -1 the accumulated balance is never negative |
| RetirementAlgorithms.FixedBalanceWithoutGrowth | Project/retirement_algorithms.py:79-84 | at rate 0 the balance after t years is principal * t |
| RetirementAlgorithms.FixedBalanceClosedForm | Project/retirement_algorithms.py:79-82 | the recurrence equals principal * (g + g^2 + ... + g^t) with g = 1 + rate: each contribution compounds for the years after it is made |
| RetirementAlgorithms.VariableInvestor | Project/retirement_algorithms.py:128-150 | negative principal and an empty list are rejected; otherwise the first rate below -1 is reported by its index, before any compounding; with valid rates the result is principal times the product of (1 + r) over the list |
| RetirementAlgorithms.GrowthFactor | Project/retirement_algorithms.py:146-148 | the product of (1 + r) over the rate list, by which the loop multiplies the principal |
| RetirementAlgorithms.GrowthFactorAppend | Project/retirement_algorithms.py:146-148 | adding one more year at rate x multiplies the final balance by (1 + x), so the left-to-right loop and the year-by-year table agree |
| RetirementAlgorithms.GrowthFactorNonNegative | Project/retirement_algorithms.py:136-150 | when every rate is at least -1 the growth factor, and so the final balance of a non-negative principal, is non-negative |
| RetirementAlgorithms.GrowthFactorTotalLoss | Project/retirement_algorithms.py:146-148 | one rate of exactly -1 anywhere in the list makes the final balance 0 |
| RetirementAlgorithms.FinallyRetired | Project/retirement_algorithms.py:198-232 | negative balance, negative expense and rate below -1 are rejected in that order; otherwise the result is the count `YearsSurvived`, at most 1001, and for every year k up to the count and up to the cap 1000, year k opens with at least the expense exactly when k comes before the count |
| RetirementAlgorithms.DepletionBalance | Project/retirement_algorithms.py:219-222 | the balance after t years, B(0) = balance, B(t) = (B(t-1) - expense) * (1 + rate): withdraw, then grow the rest |
| RetirementAlgorithms.YearsSurvived | Project/retirement_algorithms.py:206-232 | the count is at most 1001 and is 0 exactly when the balance is below the expense (at least 1 otherwise) |
| RetirementAlgorithms.SurvivedFrom | Project/retirement_algorithms.py:217-230 | from year k the loop reports a count between k and 1001 |
| RetirementAlgorithms.YearsSurvivedCharacterization | Project/retirement_algorithms.py:217-230 | the reported count n has B(k) >= expense for every k < n, and B(n) < expense whenever n <= 1000 |
| RetirementAlgorithms.YearsSurvivedUnique | Project/retirement_algorithms.py:217-230 | any count with those properties is the reported one |
| RetirementAlgorithms.DepletionBalanceAntitone | Project/retirement_algorithms.py:219-222 | with rate >= -1, a larger withdrawal leaves a balance no larger in every year |
| RetirementAlgorithms.YearsSurvivedAntitone | Project/retirement_algorithms.py:217-230 | with rate >= -1 the count is non-increasing in the expense, cap included |
| RetirementAlgorithms.NoWithdrawalHitsCap | Project/retirement_algorithms.py:227-230 | with expense 0, balance >= 0 and rate >= -1 the loop never fails its guard and the count is exactly 1001 |
| RetirementAlgorithms.MaximumExpensed | Project/retirement_algorithms.py:235-341 | takes the source's defaults (target 20, epsilon 0.01, 100 iterations); non-positive balance, non-positive target, non-positive epsilon and rate below -1 are rejected in that order; every other call succeeds, and its result meets `SearchOutcome` |
| RetirementAlgorithms.Bisect | Project/retirement_algorithms.py:307-341 | on arguments that passed the checks, the loop's result meets `SearchOutcome`; its invariants keep the bracket, keep the width at balance halved once per oracle call, and record that every halving started from a width above epsilon |
| RetirementAlgorithms.SearchOutcome | Project/retirement_algorithms.py:307-341 | the search's promise: the result lies in [0, balance] and is the midpoint of a `Bracket`; the oracle ran at most max_iterations times (never when max_iterations <= 0, when the result is balance / 2); every halving started from a width above epsilon, so the loop stops at the first width <= epsilon; either the midpoint met the target exactly, or the bracket is at most epsilon wide or the iteration limit was reached; the width is the balance halved once per halving; every withdrawal that meets the target exactly lies in the bracket |
| RetirementAlgorithms.BisectStep | Project/retirement_algorithms.py:315-330 | the half the oracle's answer selects is again a bracket, half as wide: a midpoint lasting longer than the target becomes the low end, one lasting shorter becomes the high end |
| RetirementAlgorithms.MatchedSearch | Project/retirement_algorithms.py:332-334 | stopping on an exact match at the k-th oracle call meets `SearchOutcome`, with width balance halved k-1 times |
| RetirementAlgorithms.ExhaustedSearch | Project/retirement_algorithms.py:314-341 | leaving the loop after k halvings, with width at most epsilon or k at the iteration limit, meets `SearchOutcome` with the midpoint of the final bracket |
| RetirementAlgorithms.Halved | Project/retirement_algorithms.py:316-330 | the bracket width after n halvings of the starting width |
| RetirementAlgorithms.HalvedIsDivision | Project/retirement_algorithms.py:316-330 | halving n times is dividing by 2^n: the width after n halvings times 2^n is the starting width |
| RetirementAlgorithms.Bracket | Project/retirement_algorithms.py:308-330 | the search interval: 0 <= low <= high <= balance, low is 0 or lasts longer than the target, high is the balance or lasts shorter |
| RetirementAlgorithms.BracketContainsSolutions | Project/retirement_algorithms.py:321-330 | for a positive target and rate >= -1, every non-negative withdrawal that lasts exactly the target lies inside the bracket |
| RetirementAlgorithms.FixedExample | Project/retirement_algorithms.py:79-84 | fixedInvestor(7500, 0.05, 3) computes 24825.9375 |
| RetirementAlgorithms.VariableExample | Project/retirement_algorithms.py:143-150 | variableInvestor(10000, [0.05, 0.03, -0.02]) computes 10598.7 |
| RetirementAlgorithms.SelfTestHalvings | Project/retirement_algorithms.py:418-429 | for the self-test search over 500000 at the default epsilon 0.01, 25 halvings leave the interval wider than epsilon and 26 do not, so the loop makes at most 26 oracle calls |
| RetirementAlgorithms.DepletionExample | Project/retirement_algorithms.py:206-232 | finallyRetired(100000, 10000, 0.03) computes 11 |

## Left out

- `Project/main.py` and `Project/app.py` are not part of this model. They hold the console menu, the input prompts, the coloured output and a one-route web page, which are I/O and presentation.
- `format_currency` and `format_percentage` are not modelled. They only render floats as text.
- Floating-point rounding is not modelled. All arithmetic is exact over `real`, so the tolerance comparisons of the self-test block do not arise.
- The `isinstance` checks that raise `TypeError` are not modelled. The parameters are typed (`years: int`, `rateList: seq<real>`), so those errors cannot occur.
- `target_years` and `max_iterations` are integers here. The source accepts any number for them.
- VariableInvestor: order sensitivity of the rate list is not stated. Over exact reals the product of (1 + r) is commutative, and the model keeps only the left-to-right order of the loop.
- MaximumExpensed: no closeness to the target is promised for the self-test case (500000, 0.04, 25). The source promises none in general either, and the up to 26 bisection steps of that case are not unfolded; `SelfTestHalvings` only bounds their number.
- The printing self-test block at the end of the source file (five cases) is not modelled as such. Tests 1 to 3 appear as the worked-example lemmas `FixedExample`, `VariableExample` and `DepletionExample`. Test 4 is covered only by `SelfTestHalvings` and the general contract of `MaximumExpensed`. Test 5, the three rejected `fixedInvestor` calls, is covered by the error clauses of `FixedInvestor`'s contract.
