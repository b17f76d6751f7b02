/** The RD (recurring deposit) calculator: a level monthly deposit, each
    compounded quarterly for the months it stays invested, so the deposit
    with j months remaining grows by (1 + q)^(j/3), q the quarterly rate.

    The fractional power (1 + q)^(j/3) is c^j for the positive cube root c
    of 1 + q; the calculator takes c as a parameter tied to the rate by its
    precondition, and RdWholeQuarters shows it agrees with whole-quarter
    compounding. */
module RecurringDeposit {
  import opened Powers

  datatype RdResult = RdResult(monthlyDeposit: real, totalDeposit: real, interestEarned: real, maturityValue: real)

  /** The quarterly rate of an annual percentage rate, as a fraction. */
  function QuarterlyRate(annualRatePercent: real): (q: real)
    ensures q == 0.0 <==> annualRatePercent == 0.0
    ensures q > 0.0 <==> annualRatePercent > 0.0
  {
    annualRatePercent / 100.0 / 4.0
  }

  /** What a deposit d grows to with j months remaining, c the monthly
      growth factor. */
  function DepositValue(d: real, c: real, j: nat): real
  {
    d * Pow(c, j)
  }

  /** The maturity value of the deposits with 1, 2, ..., k months
      remaining. */
  function Maturity(d: real, c: real, k: nat): real
  {
    if k == 0 then 0.0 else Maturity(d, c, k - 1) + DepositValue(d, c, k)
  }

  /** What the deposits of n months come to. */
  function Deposited(d: real, n: nat): real
  {
    d * (n as real)
  }

  lemma DepositedStep(d: real, n: nat)
    requires n >= 1
    ensures Deposited(d, n) == Deposited(d, n - 1) + d
  {
    assert (n as real) == ((n - 1) as real) + 1.0;
  }

  /** calculateRD: the maturity value sums every month's deposit grown for
      the months it remains invested; the total deposit is the deposit times
      the number of months; the interest is their difference, zero at a zero
      rate and positive at a positive rate. */
  method CalculateRD(monthlyDeposit: real, annualRatePercent: real, timePeriodYears: nat, monthlyGrowth: real)
    returns (res: RdResult)
    requires monthlyGrowth > 0.0
    requires monthlyGrowth * monthlyGrowth * monthlyGrowth == 1.0 + QuarterlyRate(annualRatePercent)
    ensures res.monthlyDeposit == monthlyDeposit
    ensures res.maturityValue == Maturity(monthlyDeposit, monthlyGrowth, 12 * timePeriodYears)
    ensures res.totalDeposit == Deposited(monthlyDeposit, 12 * timePeriodYears)
    ensures res.interestEarned == res.maturityValue - res.totalDeposit
    ensures annualRatePercent == 0.0 ==> res.maturityValue == res.totalDeposit && res.interestEarned == 0.0
    ensures annualRatePercent > 0.0 && monthlyDeposit > 0.0 && timePeriodYears >= 1 ==> res.interestEarned > 0.0
  {
    var months := 12 * timePeriodYears;

    var maturityValue := 0.0;
    var month := 1;
    while month <= months
      invariant 1 <= month <= months + 1
      invariant maturityValue == Maturity(monthlyDeposit, monthlyGrowth, months)
                               - Maturity(monthlyDeposit, monthlyGrowth, months - month + 1)
    {
      var remainingMonths := months - month + 1;
      maturityValue := maturityValue + DepositValue(monthlyDeposit, monthlyGrowth, remainingMonths);
      month := month + 1;
    }

    var totalDeposit := Deposited(monthlyDeposit, months);
    RdInterestSign(monthlyDeposit, annualRatePercent, timePeriodYears, monthlyGrowth);
    res := RdResult(monthlyDeposit, totalDeposit, maturityValue - totalDeposit, maturityValue);
  }

  lemma PowThree(c: real)
    ensures Pow(c, 3) == c * c * c
  {
    calc {
      Pow(c, 3);
      c * Pow(c, 2);
      c * (c * Pow(c, 1));
      c * (c * (c * Pow(c, 0)));
      c * c * c;
    }
  }

  /** The only positive cube root of 1 is 1. */
  lemma CubeRootOfOne(c: real)
    requires c > 0.0 && c * c * c == 1.0
    ensures c == 1.0
  {
  }

  /** A positive cube root of a number above 1 is above 1. */
  lemma CubeRootAboveOne(c: real)
    requires c > 0.0 && c * c * c > 1.0
    ensures c > 1.0
  {
  }

  /** A deposit with 3k months remaining grows exactly as k whole quarters of
      compounding at the quarterly rate. */
  lemma RdWholeQuarters(annualRatePercent: real, c: real, k: nat)
    requires c > 0.0 && c * c * c == 1.0 + QuarterlyRate(annualRatePercent)
    ensures Pow(c, 3 * k) == Pow(1.0 + QuarterlyRate(annualRatePercent), k)
  {
    PowMul(c, 3, k);
    PowThree(c);
  }

  /** With growth factor 1 the maturity value is the sum of the deposits. */
  lemma {:induction false} MaturityWithoutGrowth(d: real, k: nat)
    ensures Maturity(d, 1.0, k) == Deposited(d, k)
  {
    if k > 0 {
      MaturityWithoutGrowth(d, k - 1);
      PowOne(k);
      DepositedStep(d, k);
    }
  }

  /** With growth factor above 1 and a positive deposit every deposit earns
      interest, so the maturity value exceeds the sum of the deposits. */
  lemma {:induction false} MaturityExceedsDeposits(d: real, c: real, k: nat)
    requires d > 0.0 && c > 1.0 && k >= 1
    ensures Maturity(d, c, k) > Deposited(d, k)
  {
    PowAboveOne(c, k);
    assert DepositValue(d, c, k) > d by {
      assert d * (Pow(c, k) - 1.0) > 0.0;
    }
    DepositedStep(d, k);
    if k > 1 {
      MaturityExceedsDeposits(d, c, k - 1);
    } else {
      assert Maturity(d, c, 0) == 0.0;
    }
  }

  /** m * (c - 1) == d * c * (q - 1): the geometric-series closed form of a
      maturity value m, q standing for c^k. */
  predicate GeometricClosedForm(m: real, d: real, c: real, q: real)
  {
    m * (c - 1.0) == d * c * (q - 1.0)
  }

  /** Adding the deposit with one more month remaining keeps the closed
      form, with q multiplied by c. */
  lemma GeometricStep(m: real, d: real, c: real, q: real)
    requires GeometricClosedForm(m, d, c, q)
    ensures GeometricClosedForm(m + d * (c * q), d, c, c * q)
  {
    calc {
      (m + d * (c * q)) * (c - 1.0);
      m * (c - 1.0) + d * (c * q) * (c - 1.0);
      d * c * (q - 1.0) + d * (c * q) * (c - 1.0);
      d * c * (c * q - 1.0);
    }
  }

  /** The geometric-series closed form of the maturity value:
      Maturity(d, c, k) * (c - 1) == d * c * (c^k - 1). */
  lemma {:induction false} MaturityClosedForm(d: real, c: real, k: nat)
    ensures GeometricClosedForm(Maturity(d, c, k), d, c, Pow(c, k))
  {
    if k > 0 {
      MaturityClosedForm(d, c, k - 1);
      GeometricStep(Maturity(d, c, k - 1), d, c, Pow(c, k - 1));
    }
  }

  /** At a zero rate the monthly growth factor is 1, the maturity value is
      the sum of the deposits and no interest is earned; at a positive rate
      with a positive deposit for at least a year, interest is positive. */
  lemma RdInterestSign(monthlyDeposit: real, annualRatePercent: real, timePeriodYears: nat, c: real)
    requires c > 0.0 && c * c * c == 1.0 + QuarterlyRate(annualRatePercent)
    ensures annualRatePercent == 0.0 ==>
      Maturity(monthlyDeposit, c, 12 * timePeriodYears) == Deposited(monthlyDeposit, 12 * timePeriodYears)
    ensures annualRatePercent > 0.0 && monthlyDeposit > 0.0 && timePeriodYears >= 1 ==>
      Maturity(monthlyDeposit, c, 12 * timePeriodYears) > Deposited(monthlyDeposit, 12 * timePeriodYears)
  {
    if annualRatePercent == 0.0 {
      CubeRootOfOne(c);
      MaturityWithoutGrowth(monthlyDeposit, 12 * timePeriodYears);
    }
    if annualRatePercent > 0.0 && monthlyDeposit > 0.0 && timePeriodYears >= 1 {
      CubeRootAboveOne(c);
      MaturityExceedsDeposits(monthlyDeposit, c, 12 * timePeriodYears);
    }
  }
}
