/**
 * The numeric engine of a retirement planner: growth under fixed yearly
 * contributions, growth under a list of yearly rates, the number of years a
 * fund survives fixed yearly withdrawals, and a bisection search for the
 * withdrawal that makes the fund last a target number of years.
 *
 * Amounts and rates are exact reals; a rate of -1.0 means total loss.
 * Every operation validates its arguments first and reports the first
 * violated condition as an InvalidArgument, returning no partial result.
 */
module RetirementAlgorithms {

  /** The conditions under which the engine refuses its arguments. */
  datatype InvalidArgument =
    | NegativePrincipal
    | RateBelowMinusOne
    | NegativeYears
    | EmptyRateList
    | RateBelowMinusOneAt(index: nat)
    | NegativeBalance
    | NegativeExpense
    | NonPositiveBalance
    | NonPositiveTargetYears
    | NonPositiveEpsilon

  datatype Result<T> = Ok(value: T) | Err(error: InvalidArgument)

  /** The safety cap of the depletion loop: it stops once the count passes it. */
  const YearCap: nat := 1000

  // ---------------------------------------------------------------------
  // Arithmetic helpers
  // ---------------------------------------------------------------------

  lemma MulNonNegative(x: real, y: real)
    requires 0.0 <= x && 0.0 <= y
    ensures 0.0 <= x * y
  {}

  lemma MulMonotone(x: real, y: real, g: real)
    requires y <= x && 0.0 <= g
    ensures y * g <= x * g
  {
    MulNonNegative(x - y, g);
  }

  lemma Distribute(a: real, b: real, g: real)
    ensures (a + b) * g == a * g + b * g
  {}

  lemma Rearrange(x: real, a: real, b: real)
    ensures x * (a * b) == a * (x * b)
  {}

  lemma HalfTimesDouble(h: real, p: real)
    ensures (h / 2.0) * (2.0 * p) == h * p
  {}

  lemma Factor(p: real, b: real, s: real, s': real, g: real)
    requires b == p * s && s' == (s + 1.0) * g
    ensures (b + p) * g == p * s'
  {}

  /** x to the power n. */
  ghost function Pow(x: real, n: nat): real
  {
    if n == 0 then 1.0 else x * Pow(x, n - 1)
  }

  lemma {:induction false} PowAdd(x: real, m: nat, n: nat)
    ensures Pow(x, m + n) == Pow(x, m) * Pow(x, n)
  {
    if n > 0 {
      PowAdd(x, m, n - 1);
      Rearrange(x, Pow(x, m), Pow(x, n - 1));
    }
  }

  /** x halved n times: the width of the bisection interval after n halvings. */
  ghost function Halved(x: real, n: nat): real
  {
    if n == 0 then x else Halved(x, n - 1) / 2.0
  }

  /** Halving n times is dividing by 2^n. */
  lemma {:induction false} HalvedIsDivision(x: real, n: nat)
    ensures Halved(x, n) * Pow(2.0, n) == x
  {
    if n > 0 {
      HalvedIsDivision(x, n - 1);
      HalfTimesDouble(Halved(x, n - 1), Pow(2.0, n - 1));
    }
  }

  // ---------------------------------------------------------------------
  // fixedInvestor
  // ---------------------------------------------------------------------

  /** B(0) = 0, B(t) = (B(t-1) + principal) * (1 + rate). */
  ghost function FixedBalance(principal: real, rate: real, t: nat): real
  {
    if t == 0 then 0.0 else (FixedBalance(principal, rate, t - 1) + principal) * (1.0 + rate)
  }

  /** g + g^2 + ... + g^n, the reference sum for the contribution recurrence. */
  ghost function GeometricSum(g: real, n: nat): real
  {
    if n == 0 then 0.0 else GeometricSum(g, n - 1) + Pow(g, n)
  }

  method FixedInvestor(principal: real, rate: real, years: int) returns (r: Result<real>)
    ensures principal < 0.0 ==> r == Err(NegativePrincipal)
    ensures principal >= 0.0 && rate < -1.0 ==> r == Err(RateBelowMinusOne)
    ensures principal >= 0.0 && rate >= -1.0 && years < 0 ==> r == Err(NegativeYears)
    ensures principal >= 0.0 && rate >= -1.0 && years == 0 ==> r == Ok(0.0)
    ensures principal >= 0.0 && rate >= -1.0 && years >= 0 ==> r == Ok(FixedBalance(principal, rate, years))
  {
    if principal < 0.0 {
      return Err(NegativePrincipal);
    }
    if rate < -1.0 {
      return Err(RateBelowMinusOne);
    }
    if years < 0 {
      return Err(NegativeYears);
    }
    if years == 0 {
      return Ok(0.0);
    }
    var balance := 0.0;
    var growthMultiplier := 1.0 + rate;
    for year := 1 to years + 1
      invariant balance == FixedBalance(principal, rate, year - 1)
    {
      balance := (balance + principal) * growthMultiplier;
    }
    return Ok(balance);
  }

  /** With non-negative contributions and a rate of at least -100% the balance never goes negative. */
  lemma {:induction false} FixedBalanceNonNegative(principal: real, rate: real, t: nat)
    requires principal >= 0.0 && rate >= -1.0
    ensures FixedBalance(principal, rate, t) >= 0.0
  {
    if t > 0 {
      FixedBalanceNonNegative(principal, rate, t - 1);
      MulNonNegative(FixedBalance(principal, rate, t - 1) + principal, 1.0 + rate);
    }
  }

  /** Without growth the balance is the sum of the contributions. */
  lemma {:induction false} FixedBalanceWithoutGrowth(principal: real, t: nat)
    ensures FixedBalance(principal, 0.0, t) == principal * t as real
  {
    if t > 0 {
      FixedBalanceWithoutGrowth(principal, t - 1);
    }
  }

  lemma {:induction false} GeometricSumStep(g: real, n: nat)
    requires n >= 1
    ensures (GeometricSum(g, n - 1) + 1.0) * g == GeometricSum(g, n)
  {
    if n > 1 {
      GeometricSumStep(g, n - 1);
      var s, p := GeometricSum(g, n - 1 - 1), Pow(g, n - 1);
      assert GeometricSum(g, n - 1) == s + p;
      assert Pow(g, n) == g * p;
      Distribute(s + 1.0, p, g);
    } else {
      assert Pow(g, 1) == g * Pow(g, 0);
    }
  }

  /** Closed form: each contribution grows for the years that follow it, B(t) = principal * (g + ... + g^t) with g = 1 + rate. */
  lemma {:induction false} FixedBalanceClosedForm(principal: real, rate: real, t: nat)
    ensures FixedBalance(principal, rate, t) == principal * GeometricSum(1.0 + rate, t)
  {
    if t > 0 {
      FixedBalanceClosedForm(principal, rate, t - 1);
      GeometricSumStep(1.0 + rate, t);
      Factor(principal, FixedBalance(principal, rate, t - 1), GeometricSum(1.0 + rate, t - 1), GeometricSum(1.0 + rate, t), 1.0 + rate);
    }
  }

  // ---------------------------------------------------------------------
  // variableInvestor
  // ---------------------------------------------------------------------

  /** Every rate is at least -100%. */
  ghost predicate RatesValid(rates: seq<real>)
  {
    forall i :: 0 <= i < |rates| ==> rates[i] >= -1.0
  }

  /** The product of (1 + r) over the rates, taken from the first one. */
  ghost function GrowthFactor(rates: seq<real>): real
  {
    if rates == [] then 1.0 else (1.0 + rates[0]) * GrowthFactor(rates[1..])
  }

  method VariableInvestor(principal: real, rateList: seq<real>) returns (r: Result<real>)
    ensures principal < 0.0 ==> r == Err(NegativePrincipal)
    ensures principal >= 0.0 && rateList == [] ==> r == Err(EmptyRateList)
    ensures principal >= 0.0 && rateList != [] && RatesValid(rateList) ==> r == Ok(principal * GrowthFactor(rateList))
    ensures principal >= 0.0 && rateList != [] && !RatesValid(rateList) ==>
      && r.Err? && r.error.RateBelowMinusOneAt?
      && r.error.index < |rateList| && rateList[r.error.index] < -1.0
      && forall j :: 0 <= j < r.error.index ==> rateList[j] >= -1.0
  {
    if principal < 0.0 {
      return Err(NegativePrincipal);
    }
    if |rateList| == 0 {
      return Err(EmptyRateList);
    }
    // every rate is checked before any compounding happens
    for i := 0 to |rateList|
      invariant forall j :: 0 <= j < i ==> rateList[j] >= -1.0
    {
      if rateList[i] < -1.0 {
        return Err(RateBelowMinusOneAt(i));
      }
    }
    var balance := principal;
    for i := 0 to |rateList|
      invariant balance == principal * GrowthFactor(rateList[..i])
    {
      var growthMultiplier := 1.0 + rateList[i];
      assert rateList[..i + 1] == rateList[..i] + [rateList[i]];
      GrowthFactorAppend(rateList[..i], rateList[i]);
      balance := balance * growthMultiplier;
    }
    assert rateList[..|rateList|] == rateList;
    assert balance == principal * GrowthFactor(rateList);
    return Ok(balance);
  }

  /** One more year at rate x multiplies the final balance by (1 + x): the year-by-year table agrees with the total. */
  lemma {:induction false} GrowthFactorAppend(rates: seq<real>, x: real)
    ensures GrowthFactor(rates + [x]) == GrowthFactor(rates) * (1.0 + x)
  {
    if rates != [] {
      assert (rates + [x])[1..] == rates[1..] + [x];
      GrowthFactorAppend(rates[1..], x);
    }
  }

  /** With every rate at least -100% the final balance of a non-negative principal is non-negative. */
  lemma {:induction false} GrowthFactorNonNegative(rates: seq<real>)
    requires RatesValid(rates)
    ensures GrowthFactor(rates) >= 0.0
  {
    if rates != [] {
      GrowthFactorNonNegative(rates[1..]);
      MulNonNegative(1.0 + rates[0], GrowthFactor(rates[1..]));
    }
  }

  /** One year of total loss wipes out the balance for good. */
  lemma {:induction false} GrowthFactorTotalLoss(rates: seq<real>, i: nat)
    requires i < |rates| && rates[i] == -1.0
    ensures GrowthFactor(rates) == 0.0
  {
    if i > 0 {
      GrowthFactorTotalLoss(rates[1..], i - 1);
    }
  }

  // ---------------------------------------------------------------------
  // finallyRetired
  // ---------------------------------------------------------------------

  /** B(0) = balance, B(t) = (B(t-1) - expense) * (1 + rate): withdraw first, then grow the rest. */
  ghost function DepletionBalance(balance: real, expense: real, rate: real, t: nat): real
  {
    if t == 0 then balance else (DepletionBalance(balance, expense, rate, t - 1) - expense) * (1.0 + rate)
  }

  /** The depletion loop from a point where `years` years have been survived and `current` is left. */
  ghost function SurvivedFrom(current: real, expense: real, rate: real, years: nat): (n: nat)
    requires years <= YearCap + 1
    ensures years <= n <= YearCap + 1
    decreases YearCap + 1 - years
  {
    if current < expense || years == YearCap + 1 then years
    else SurvivedFrom((current - expense) * (1.0 + rate), expense, rate, years + 1)
  }

  /** One more year survived: the loop continues from the balance after withdrawal and growth. */
  lemma SurvivedFromStep(current: real, expense: real, rate: real, years: nat)
    requires years <= YearCap && current >= expense
    ensures SurvivedFrom(current, expense, rate, years)
         == SurvivedFrom((current - expense) * (1.0 + rate), expense, rate, years + 1)
  {}

  /** The number of years finallyRetired reports for valid arguments. */
  ghost function YearsSurvived(balance: real, expense: real, rate: real): (n: nat)
    ensures n <= YearCap + 1
    ensures n == 0 <==> balance < expense
  {
    SurvivedFrom(balance, expense, rate, 0)
  }

  method FinallyRetired(balance: real, expense: real, rate: real) returns (r: Result<nat>)
    ensures balance < 0.0 ==> r == Err(NegativeBalance)
    ensures balance >= 0.0 && expense < 0.0 ==> r == Err(NegativeExpense)
    ensures balance >= 0.0 && expense >= 0.0 && rate < -1.0 ==> r == Err(RateBelowMinusOne)
    ensures balance >= 0.0 && expense >= 0.0 && rate >= -1.0 ==> r == Ok(YearsSurvived(balance, expense, rate))
    ensures r.Ok? ==> r.value <= YearCap + 1
    ensures r.Ok? ==> forall k :: 0 <= k <= r.value && k <= YearCap ==>
      (DepletionBalance(balance, expense, rate, k) >= expense <==> k < r.value)
  {
    if balance < 0.0 {
      return Err(NegativeBalance);
    }
    if expense < 0.0 {
      return Err(NegativeExpense);
    }
    if rate < -1.0 {
      return Err(RateBelowMinusOne);
    }
    if balance < expense {
      return Ok(0);
    }
    var currentBalance := balance;
    var yearsSurvived: nat := 0;
    var growthMultiplier := 1.0 + rate;
    while currentBalance >= expense
      invariant yearsSurvived <= YearCap
      invariant currentBalance == DepletionBalance(balance, expense, rate, yearsSurvived)
      invariant forall k :: 0 <= k < yearsSurvived ==> DepletionBalance(balance, expense, rate, k) >= expense
      decreases YearCap - yearsSurvived
    {
      currentBalance := currentBalance - expense;
      currentBalance := currentBalance * growthMultiplier;
      yearsSurvived := yearsSurvived + 1;
      if yearsSurvived > YearCap {
        break;
      }
    }
    YearsSurvivedUnique(balance, expense, rate, yearsSurvived);
    return Ok(yearsSurvived);
  }

  lemma {:induction false} SurvivedFromCharacterization(balance: real, expense: real, rate: real, k: nat)
    requires k <= YearCap + 1
    requires forall j :: 0 <= j < k ==> DepletionBalance(balance, expense, rate, j) >= expense
    ensures var n := SurvivedFrom(DepletionBalance(balance, expense, rate, k), expense, rate, k);
      && (forall j :: 0 <= j < n ==> DepletionBalance(balance, expense, rate, j) >= expense)
      && (n <= YearCap ==> DepletionBalance(balance, expense, rate, n) < expense)
    decreases YearCap + 1 - k
  {
    var b := DepletionBalance(balance, expense, rate, k);
    if !(b < expense || k == YearCap + 1) {
      var b' := (b - expense) * (1.0 + rate);
      assert DepletionBalance(balance, expense, rate, k + 1) == b';
      SurvivedFromStep(b, expense, rate, k);
      SurvivedFromCharacterization(balance, expense, rate, k + 1);
    }
  }

  /**
   * The count is the first year whose opening balance cannot fund the
   * withdrawal, or 1001 once the cap is hit: every earlier year could fund it.
   */
  lemma YearsSurvivedCharacterization(balance: real, expense: real, rate: real)
    ensures var n := YearsSurvived(balance, expense, rate);
      && (forall j :: 0 <= j < n ==> DepletionBalance(balance, expense, rate, j) >= expense)
      && (n <= YearCap ==> DepletionBalance(balance, expense, rate, n) < expense)
  {
    SurvivedFromCharacterization(balance, expense, rate, 0);
  }

  /** The characterisation pins the count down: any count with those properties is the one reported. */
  lemma YearsSurvivedUnique(balance: real, expense: real, rate: real, n: nat)
    requires n <= YearCap + 1
    requires forall j :: 0 <= j < n ==> DepletionBalance(balance, expense, rate, j) >= expense
    requires n <= YearCap ==> DepletionBalance(balance, expense, rate, n) < expense
    ensures n == YearsSurvived(balance, expense, rate)
  {
    YearsSurvivedCharacterization(balance, expense, rate);
  }

  /** A larger withdrawal never leaves a larger balance, in any year. */
  lemma {:induction false} DepletionBalanceAntitone(balance: real, e1: real, e2: real, rate: real, t: nat)
    requires e1 <= e2 && rate >= -1.0
    ensures DepletionBalance(balance, e2, rate, t) <= DepletionBalance(balance, e1, rate, t)
  {
    if t > 0 {
      DepletionBalanceAntitone(balance, e1, e2, rate, t - 1);
      MulMonotone(DepletionBalance(balance, e1, rate, t - 1) - e1,
                  DepletionBalance(balance, e2, rate, t - 1) - e2, 1.0 + rate);
    }
  }

  /** The survival count is non-increasing in the withdrawal, cap included: the oracle the bisection relies on is monotone. */
  lemma YearsSurvivedAntitone(balance: real, e1: real, e2: real, rate: real)
    requires e1 <= e2 && rate >= -1.0
    ensures YearsSurvived(balance, e2, rate) <= YearsSurvived(balance, e1, rate)
  {
    var n1, n2 := YearsSurvived(balance, e1, rate), YearsSurvived(balance, e2, rate);
    YearsSurvivedCharacterization(balance, e1, rate);
    YearsSurvivedCharacterization(balance, e2, rate);
    if n1 < n2 {
      DepletionBalanceAntitone(balance, e1, e2, rate, n1);
    }
  }

  lemma {:induction false} NoWithdrawalNonNegative(balance: real, rate: real, t: nat)
    requires balance >= 0.0 && rate >= -1.0
    ensures DepletionBalance(balance, 0.0, rate, t) >= 0.0
  {
    if t > 0 {
      NoWithdrawalNonNegative(balance, rate, t - 1);
      MulNonNegative(DepletionBalance(balance, 0.0, rate, t - 1), 1.0 + rate);
    }
  }

  /** With nothing withdrawn the fund never runs out, so the count is always the capped 1001. */
  lemma NoWithdrawalHitsCap(balance: real, rate: real)
    requires balance >= 0.0 && rate >= -1.0
    ensures YearsSurvived(balance, 0.0, rate) == YearCap + 1
  {
    var n := YearsSurvived(balance, 0.0, rate);
    YearsSurvivedCharacterization(balance, 0.0, rate);
    if n <= YearCap {
      NoWithdrawalNonNegative(balance, rate, n);
      assert false;
    }
  }

  // ---------------------------------------------------------------------
  // maximumExpensed
  // ---------------------------------------------------------------------

  /**
   * The bisection interval: inside [0, balance], its lower end is 0 or lasts
   * longer than the target, its upper end is the balance or lasts shorter.
   */
  ghost predicate Bracket(balance: real, rate: real, targetYears: int, low: real, high: real)
  {
    && 0.0 <= low <= high <= balance
    && (low == 0.0 || YearsSurvived(balance, low, rate) > targetYears)
    && (high == balance || YearsSurvived(balance, high, rate) < targetYears)
  }

  /** Every withdrawal that lasts exactly the target lies inside the bracket. */
  lemma BracketContainsSolutions(balance: real, rate: real, targetYears: int, low: real, high: real)
    requires Bracket(balance, rate, targetYears, low, high)
    requires rate >= -1.0 && targetYears > 0
    ensures forall e :: 0.0 <= e && YearsSurvived(balance, e, rate) == targetYears ==> low <= e <= high
  {
    forall e | 0.0 <= e && YearsSurvived(balance, e, rate) == targetYears
      ensures low <= e <= high
    {
      if low != 0.0 && e < low {
        YearsSurvivedAntitone(balance, e, low, rate);
      }
      if high != balance && e > high {
        YearsSurvivedAntitone(balance, high, e, rate);
      }
    }
  }

  /** One bisection step: the half the oracle's answer selects is again a bracket, half as wide. */
  lemma BisectStep(balance: real, rate: real, targetYears: int, low: real, high: real, k: nat, years: nat)
    requires Bracket(balance, rate, targetYears, low, high)
    requires high - low == Halved(balance, k)
    requires years == YearsSurvived(balance, (low + high) / 2.0, rate)
    ensures var mid := (low + high) / 2.0;
      years > targetYears ==> Bracket(balance, rate, targetYears, mid, high) && high - mid == Halved(balance, k + 1)
    ensures var mid := (low + high) / 2.0;
      years < targetYears ==> Bracket(balance, rate, targetYears, low, mid) && mid - low == Halved(balance, k + 1)
  {}

  /**
   * What the search promises about a result `value` with final bracket
   * [low, high] after `calls` oracle calls: it is the midpoint of a bracket
   * inside [0, balance]; the oracle ran at most maxIterations times; every
   * halving started from a width above epsilon; the search either met the
   * target exactly or ran out of width or iterations; and every withdrawal
   * meeting the target exactly lies in the bracket.
   */
  ghost predicate SearchOutcome(balance: real, rate: real, targetYears: int, epsilon: real, maxIterations: int,
                                value: real, low: real, high: real, calls: nat)
  {
    && 0.0 <= value <= balance
    && Bracket(balance, rate, targetYears, low, high) && value == (low + high) / 2.0
    && calls <= (if maxIterations < 0 then 0 else maxIterations)
    && (maxIterations <= 0 ==> calls == 0 && value == balance / 2.0)
    && (calls >= 1 ==> Halved(balance, calls - 1) > epsilon)
    && (|| (&& 1 <= calls
            && YearsSurvived(balance, value, rate) == targetYears
            && high - low == Halved(balance, calls - 1))
        || (&& (high - low <= epsilon || calls >= maxIterations)
            && high - low == Halved(balance, calls)))
    && (forall e :: 0.0 <= e && YearsSurvived(balance, e, rate) == targetYears ==> low <= e <= high)
  }

  /** The search stopped on an exact match at its `calls`-th oracle call. */
  lemma MatchedSearch(balance: real, rate: real, targetYears: int, epsilon: real, maxIterations: int,
                      low: real, high: real, calls: nat)
    requires rate >= -1.0 && targetYears > 0 && 1 <= calls <= maxIterations
    requires Bracket(balance, rate, targetYears, low, high)
    requires YearsSurvived(balance, (low + high) / 2.0, rate) == targetYears
    requires high - low == Halved(balance, calls - 1) && high - low > epsilon
    ensures SearchOutcome(balance, rate, targetYears, epsilon, maxIterations, (low + high) / 2.0, low, high, calls)
  {
    BracketContainsSolutions(balance, rate, targetYears, low, high);
  }

  /** The search loop ended after `calls` halvings. */
  lemma ExhaustedSearch(balance: real, rate: real, targetYears: int, epsilon: real, maxIterations: int,
                        low: real, high: real, calls: nat)
    requires rate >= -1.0 && targetYears > 0
    requires Bracket(balance, rate, targetYears, low, high)
    requires high - low == Halved(balance, calls)
    requires calls >= 1 ==> Halved(balance, calls - 1) > epsilon
    requires maxIterations >= 0 ==> calls <= maxIterations
    requires maxIterations < 0 ==> calls == 0
    requires high - low <= epsilon || calls >= maxIterations
    ensures SearchOutcome(balance, rate, targetYears, epsilon, maxIterations, (low + high) / 2.0, low, high, calls)
  {
    BracketContainsSolutions(balance, rate, targetYears, low, high);
  }

  /**
   * maximumExpensed: checks its arguments in the source's order, then runs
   * the bisection.
   */
  method MaximumExpensed(balance: real, rate: real, targetYears: int := 20, epsilon: real := 0.01, maxIterations: int := 100)
    returns (r: Result<real>, ghost low: real, ghost high: real, ghost oracleCalls: nat)
    ensures balance <= 0.0 ==> r == Err(NonPositiveBalance)
    ensures balance > 0.0 && targetYears <= 0 ==> r == Err(NonPositiveTargetYears)
    ensures balance > 0.0 && targetYears > 0 && epsilon <= 0.0 ==> r == Err(NonPositiveEpsilon)
    ensures balance > 0.0 && targetYears > 0 && epsilon > 0.0 && rate < -1.0 ==> r == Err(RateBelowMinusOne)
    ensures balance > 0.0 && targetYears > 0 && epsilon > 0.0 && rate >= -1.0 ==> r.Ok?
    ensures r.Ok? ==> SearchOutcome(balance, rate, targetYears, epsilon, maxIterations, r.value, low, high, oracleCalls)
  {
    low, high, oracleCalls := 0.0, 0.0, 0;
    if balance <= 0.0 {
      return Err(NonPositiveBalance), low, high, oracleCalls;
    }
    if targetYears <= 0 {
      return Err(NonPositiveTargetYears), low, high, oracleCalls;
    }
    if epsilon <= 0.0 {
      return Err(NonPositiveEpsilon), low, high, oracleCalls;
    }
    if rate < -1.0 {
      return Err(RateBelowMinusOne), low, high, oracleCalls;
    }
    var value;
    value, low, high, oracleCalls := Bisect(balance, rate, targetYears, epsilon, maxIterations);
    return Ok(value), low, high, oracleCalls;
  }

  /**
   * The bisection loop of maximumExpensed, on arguments that passed its
   * checks: halve [0, balance] until it is at most epsilon wide or
   * maxIterations oracle calls were made, returning early on an exact match.
   */
  method Bisect(balance: real, rate: real, targetYears: int, epsilon: real, maxIterations: int)
    returns (value: real, ghost low: real, ghost high: real, ghost oracleCalls: nat)
    requires balance > 0.0 && targetYears > 0 && epsilon > 0.0 && rate >= -1.0
    ensures SearchOutcome(balance, rate, targetYears, epsilon, maxIterations, value, low, high, oracleCalls)
  {
    oracleCalls := 0;
    var lowExpense := 0.0;
    var highExpense := balance;
    var iterationCount: nat := 0;
    while highExpense - lowExpense > epsilon && iterationCount < maxIterations
      invariant oracleCalls == iterationCount
      invariant maxIterations >= 0 ==> iterationCount <= maxIterations
      invariant maxIterations < 0 ==> iterationCount == 0
      invariant Bracket(balance, rate, targetYears, lowExpense, highExpense)
      invariant highExpense - lowExpense == Halved(balance, iterationCount)
      invariant iterationCount >= 1 ==> Halved(balance, iterationCount - 1) > epsilon
      decreases maxIterations - iterationCount
    {
      var midExpense := (lowExpense + highExpense) / 2.0;
      var outcome := FinallyRetired(balance, midExpense, rate);
      oracleCalls := oracleCalls + 1;
      var yearsLasted := outcome.value;
      BisectStep(balance, rate, targetYears, lowExpense, highExpense, iterationCount, yearsLasted);
      if yearsLasted > targetYears {
        lowExpense := midExpense;
      } else if yearsLasted < targetYears {
        highExpense := midExpense;
      } else {
        low, high := lowExpense, highExpense;
        MatchedSearch(balance, rate, targetYears, epsilon, maxIterations, low, high, oracleCalls);
        return midExpense, low, high, oracleCalls;
      }
      iterationCount := iterationCount + 1;
    }
    low, high := lowExpense, highExpense;
    ExhaustedSearch(balance, rate, targetYears, epsilon, maxIterations, low, high, oracleCalls);
    return (lowExpense + highExpense) / 2.0, low, high, oracleCalls;
  }

  // ---------------------------------------------------------------------
  // Worked examples (the values the code computes)
  // ---------------------------------------------------------------------

  /** Three years of 7,500 at 5%: 7,875.00, then 16,143.75, then 24,825.9375. */
  lemma FixedExample()
    ensures FixedBalance(7500.0, 0.05, 3) == 24825.9375
  {
    assert FixedBalance(7500.0, 0.05, 1) == 7875.0;
    assert FixedBalance(7500.0, 0.05, 2) == 16143.75;
  }

  /** 10,000 through 5%, 3% and -2%: 10,500, then 10,815, then 10,598.70. */
  lemma VariableExample()
    ensures 10000.0 * GrowthFactor([0.05, 0.03, -0.02]) == 10598.7
  {
    var rates := [0.05, 0.03, -0.02];
    assert rates[1..] == [0.03, -0.02];
    assert rates[1..][1..] == [-0.02];
    assert rates[1..][1..][1..] == [];
  }

  /** 100,000 with 10,000 withdrawn a year at 3% covers eleven withdrawals; 6,503.09 is left after year 11. */
  lemma DepletionExample()
    ensures YearsSurvived(100000.0, 10000.0, 0.03) == 11
  {
    var e, r := 10000.0, 0.03;
    assert DepletionBalance(100000.0, e, r, 0) == 100000.0;
    assert DepletionBalance(100000.0, e, r, 1) == 92700.0;
    assert DepletionBalance(100000.0, e, r, 2) == 85181.0;
    assert DepletionBalance(100000.0, e, r, 3) == 77436.43;
    assert DepletionBalance(100000.0, e, r, 4) == 69459.5229;
    assert DepletionBalance(100000.0, e, r, 5) == 61243.308587;
    assert DepletionBalance(100000.0, e, r, 6) == 52780.60784461;
    assert DepletionBalance(100000.0, e, r, 7) == 44064.0260799483;
    assert DepletionBalance(100000.0, e, r, 8) == 35085.946862346749;
    assert DepletionBalance(100000.0, e, r, 9) == 25838.52526821715147;
    assert DepletionBalance(100000.0, e, r, 10) == 16313.6810262636660141;
    assert DepletionBalance(100000.0, e, r, 11) == 6503.091457051575994523;
    YearsSurvivedUnique(100000.0, e, r, 11);
  }

  /**
   * The self-test search (500,000 at the default tolerance 0.01) stops by
   * width after at most 26 halvings: 25 leave the interval wider than 0.01,
   * 26 do not.
   */
  lemma SelfTestHalvings()
    ensures Halved(500000.0, 26) <= 0.01 < Halved(500000.0, 25)
  {
    assert Pow(2.0, 1) == 2.0;
    assert Pow(2.0, 2) == 4.0;
    assert Pow(2.0, 3) == 8.0;
    assert Pow(2.0, 4) == 16.0;
    assert Pow(2.0, 5) == 32.0;
    PowAdd(2.0, 5, 5);
    PowAdd(2.0, 10, 10);
    PowAdd(2.0, 20, 5);
    PowAdd(2.0, 25, 1);
    assert Pow(2.0, 25) == 33554432.0;
    assert Pow(2.0, 26) == 67108864.0;
    HalvedIsDivision(500000.0, 25);
    HalvedIsDivision(500000.0, 26);
  }
}
