/** The EMI (equated monthly instalment) calculator: the level payment
    EMI = P * r * (1+r)^n / ((1+r)^n - 1) that repays a loan P over n months
    at the monthly rate r, and its amortization schedule. */
module Emi {
  import opened Powers
  import opened Sums
  import opened Bounds
  import opened Sip

  datatype EmiEntry = EmiEntry(month: nat, emi: real, principalPaid: real, interestPaid: real, balance: real)

  datatype EmiResult = EmiResult(
    emi: real,
    totalPayment: real,
    totalInterest: real,
    principal: real,
    amortizationSchedule: seq<EmiEntry>)

  /** The instalment formula; its divisor (1+r)^n - 1 must be nonzero. */
  function EmiAmount(principal: real, r: real, n: nat): real
    requires Pow(1.0 + r, n) != 1.0
  {
    var a := Pow(1.0 + r, n);
    principal * r * a / (a - 1.0)
  }

  /** One month of amortization: the month's interest b * r is paid out of
      the instalment e and the rest of e reduces the balance b. */
  function AmortizeMonth(b: real, e: real, r: real): real
  {
    b - (e - b * r)
  }

  /** The outstanding balance after k instalments e on the loan P. */
  function Balance(principal: real, r: real, e: real, k: nat): real
  {
    if k == 0 then principal else AmortizeMonth(Balance(principal, r, e, k - 1), e, r)
  }

  /** The schedule row of month k: the interest on the previous balance,
      the principal repaid, and the new balance shown clamped at zero. */
  function EntryForMonth(principal: real, r: real, e: real, k: nat): EmiEntry
    requires k >= 1
  {
    var b := Balance(principal, r, e, k - 1);
    var interest := b * r;
    EmiEntry(k, e, e - interest, interest, Max(0.0, AmortizeMonth(b, e, r)))
  }

  /** The schedule of the first n months. */
  function EmiSchedule(principal: real, r: real, e: real, n: nat): seq<EmiEntry>
  {
    if n == 0 then [] else EmiSchedule(principal, r, e, n - 1) + [EntryForMonth(principal, r, e, n)]
  }

  function PrincipalPaid(x: EmiEntry): real
  {
    x.principalPaid
  }

  function InterestPaid(x: EmiEntry): real
  {
    x.interestPaid
  }

  /** What n instalments of e come to. */
  function TotalOf(e: real, n: nat): real
  {
    e * (n as real)
  }

  lemma TotalOfStep(e: real, n: nat)
    requires n >= 1
    ensures TotalOf(e, n) == TotalOf(e, n - 1) + e
  {
    assert (n as real) == ((n - 1) as real) + 1.0;
  }

  /** The schedule has one row per month, numbered from 1; every row pays
      the instalment, split into principal and interest. */
  lemma {:induction false} EmiScheduleShape(principal: real, r: real, e: real, n: nat)
    ensures var s := EmiSchedule(principal, r, e, n);
      && |s| == n
      && forall k :: 0 <= k < n ==>
           s[k] == EntryForMonth(principal, r, e, k + 1)
           && s[k].month == k + 1 && s[k].emi == e
           && s[k].principalPaid + s[k].interestPaid == e
           && s[k].balance >= 0.0
  {
    if n > 0 {
      EmiScheduleShape(principal, r, e, n - 1);
    }
  }

  /** The closed form of a balance x reached after the loan p has grown by
      the factor a under instalments e, multiplied by the rate r:
      x * r = p * r * a - e * (a - 1). */
  predicate ClosedForm(x: real, p: real, r: real, a: real, e: real)
  {
    x * r == p * r * a - e * (a - 1.0)
  }

  /** q times the divisor of the instalment formula is its numerator. */
  predicate SolvesFormula(q: real, p: real, r: real, a: real)
  {
    q * (a - 1.0) == p * r * a
  }

  lemma BalanceStepAlgebra(b: real, e: real, r: real, p: real, a: real)
    requires ClosedForm(b, p, r, a, e)
    ensures ClosedForm(AmortizeMonth(b, e, r), p, r, (1.0 + r) * a, e)
  {
    calc {
      AmortizeMonth(b, e, r) * r;
      (b * r) * (1.0 + r) - e * r;
      (p * r * a - e * (a - 1.0)) * (1.0 + r) - e * r;
      p * r * ((1.0 + r) * a) - e * ((1.0 + r) * a - 1.0);
    }
  }

  /** The closed form of the balance, multiplied by the rate:
      B(k) * r = P * r * (1+r)^k - e * ((1+r)^k - 1). */
  lemma {:induction false} BalanceTimesRate(principal: real, r: real, e: real, k: nat)
    ensures ClosedForm(Balance(principal, r, e, k), principal, r, Pow(1.0 + r, k), e)
  {
    if k > 0 {
      BalanceTimesRate(principal, r, e, k - 1);
      BalanceStepAlgebra(Balance(principal, r, e, k - 1), e, r, principal, Pow(1.0 + r, k - 1));
    }
  }

  lemma ProductIsZero(u: real, v: real)
    requires v != 0.0
    ensures u * v == 0.0 <==> u == 0.0
  {
  }

  lemma PayoffAlgebra(p: real, r: real, a: real, e: real, q: real, x: real)
    requires r != 0.0 && a != 1.0
    requires SolvesFormula(q, p, r, a)
    requires ClosedForm(x, p, r, a, e)
    ensures x == 0.0 <==> e == q
  {
    assert x * r == (q - e) * (a - 1.0);
    ProductIsZero(x, r);
    ProductIsZero(q - e, a - 1.0);
  }

  /** The instalment times the divisor of its formula. */
  lemma EmiAmountTimesDivisor(principal: real, r: real, n: nat)
    requires Pow(1.0 + r, n) != 1.0
    ensures SolvesFormula(EmiAmount(principal, r, n), principal, r, Pow(1.0 + r, n))
  {
  }

  /** The instalment formula is exactly the level payment that clears the
      loan: for a nonzero rate, the balance after n instalments e is zero if
      and only if e is EmiAmount. */
  lemma EmiClearsLoan(principal: real, r: real, e: real, n: nat)
    requires r != 0.0 && Pow(1.0 + r, n) != 1.0
    ensures Balance(principal, r, e, n) == 0.0 <==> e == EmiAmount(principal, r, n)
  {
    BalanceTimesRate(principal, r, e, n);
    EmiAmountTimesDivisor(principal, r, n);
    PayoffAlgebra(principal, r, Pow(1.0 + r, n), e, EmiAmount(principal, r, n), Balance(principal, r, e, n));
  }

  lemma RemainingAlgebra(p: real, r: real, a: real, ak: real, e: real, x: real)
    requires r != 0.0
    requires SolvesFormula(e, p, r, a)
    requires ClosedForm(x, p, r, ak, e)
    ensures x * (a - 1.0) == p * (a - ak)
  {
    calc {
      (x * (a - 1.0)) * r;
      (x * r) * (a - 1.0);
      p * r * ak * (a - 1.0) - (e * (a - 1.0)) * (ak - 1.0);
      p * r * ak * (a - 1.0) - p * r * a * (ak - 1.0);
      (p * (a - ak)) * r;
    }
  }

  lemma NonNegativeQuotient(x: real, c: real, y: real)
    requires c > 0.0 && y >= 0.0 && x * c == y
    ensures x >= 0.0
  {
  }

  /** For a positive rate and a non-negative loan, the balance under the
      formula's instalment never goes negative within the tenure, so the
      schedule's clamp at zero never changes a balance. */
  lemma EmiBalanceNonNegative(principal: real, r: real, n: nat, k: nat)
    requires r > 0.0 && principal >= 0.0 && 1 <= n && k <= n
    ensures Pow(1.0 + r, n) > 1.0
    ensures Balance(principal, r, EmiAmount(principal, r, n), k) >= 0.0
  {
    PowAboveOne(1.0 + r, n);
    PowMonotone(1.0 + r, k, n);
    var a := Pow(1.0 + r, n);
    var ak := Pow(1.0 + r, k);
    var e := EmiAmount(principal, r, n);
    var x := Balance(principal, r, e, k);
    BalanceTimesRate(principal, r, e, k);
    EmiAmountTimesDivisor(principal, r, n);
    RemainingAlgebra(principal, r, a, ak, e, x);
    MulNonNegative(principal, a - ak);
    NonNegativeQuotient(x, a - 1.0, principal * (a - ak));
  }

  /** The principal column of the first n rows sums to what the loan went
      down by. */
  lemma {:induction false} EmiPrincipalTelescopes(principal: real, r: real, e: real, n: nat)
    ensures SumOf(EmiSchedule(principal, r, e, n), PrincipalPaid) == principal - Balance(principal, r, e, n)
  {
    if n > 0 {
      EmiPrincipalTelescopes(principal, r, e, n - 1);
      var x := EntryForMonth(principal, r, e, n);
      SumOfAppend(EmiSchedule(principal, r, e, n - 1), [x], PrincipalPaid);
      SumOfSingle(x, PrincipalPaid);
    }
  }

  /** The interest column of the first n rows sums to the n instalments
      less what the loan went down by. */
  lemma {:induction false} EmiInterestTelescopes(principal: real, r: real, e: real, n: nat)
    ensures SumOf(EmiSchedule(principal, r, e, n), InterestPaid)
         == TotalOf(e, n) - (principal - Balance(principal, r, e, n))
  {
    if n > 0 {
      EmiInterestTelescopes(principal, r, e, n - 1);
      var x := EntryForMonth(principal, r, e, n);
      SumOfAppend(EmiSchedule(principal, r, e, n - 1), [x], InterestPaid);
      SumOfSingle(x, InterestPaid);
      TotalOfStep(e, n);
    }
  }

  /** Month k + 1 of the schedule, written as the simulation computes it. */
  lemma EmiScheduleStep(principal: real, r: real, e: real, k: nat)
    ensures var b := Balance(principal, r, e, k);
      && Balance(principal, r, e, k + 1) == b - (e - b * r)
      && EmiSchedule(principal, r, e, k + 1)
         == EmiSchedule(principal, r, e, k) + [EmiEntry(k + 1, e, e - b * r, b * r, Max(0.0, b - (e - b * r)))]
  {
    assert EmiSchedule(principal, r, e, k + 1)
        == EmiSchedule(principal, r, e, k) + [EntryForMonth(principal, r, e, k + 1)];
  }

  /** The tenure in months. */
  function Months(tenureYears: nat): nat
  {
    12 * tenureYears
  }

  /** The amortization loop of calculateEMI: each month the interest on the
      balance is paid first, the rest of the instalment repays principal,
      and the row records the balance clamped at zero; the rows are the
      schedule EmiSchedule describes. */
  method Amortize(principal: real, monthlyRate: real, emi: real, months: nat) returns (amortizationSchedule: seq<EmiEntry>)
    ensures amortizationSchedule == EmiSchedule(principal, monthlyRate, emi, months)
  {
    amortizationSchedule := [];
    var balance := principal;

    var month := 1;
    while month <= months
      invariant 1 <= month <= months + 1
      invariant balance == Balance(principal, monthlyRate, emi, month - 1)
      invariant amortizationSchedule == EmiSchedule(principal, monthlyRate, emi, month - 1)
    {
      EmiScheduleStep(principal, monthlyRate, emi, month - 1);
      var interestPaid := balance * monthlyRate;
      var principalPaid := emi - interestPaid;
      balance := balance - principalPaid;
      amortizationSchedule := amortizationSchedule + [EmiEntry(month, emi, principalPaid, interestPaid, Max(0.0, balance))];
      month := month + 1;
    }
  }

  /** The schedule under the formula's instalment: one row per month,
      numbered from 1, each splitting the instalment into principal and
      interest; the principal column repays exactly the loan, the interest
      column sums to the n instalments less the loan, and the last row's
      balance is zero. */
  lemma EmiScheduleRepaysLoan(principal: real, r: real, n: nat)
    requires r != 0.0 && n >= 1 && Pow(1.0 + r, n) != 1.0
    ensures var e := EmiAmount(principal, r, n);
      var s := EmiSchedule(principal, r, e, n);
      && |s| == n
      && (forall k :: 0 <= k < n ==>
            s[k].month == k + 1 && s[k].emi == e && s[k].principalPaid + s[k].interestPaid == e
            && s[k].balance >= 0.0)
      && SumOf(s, PrincipalPaid) == principal
      && SumOf(s, InterestPaid) == TotalOf(e, n) - principal
      && s[n - 1].balance == 0.0
  {
    var e := EmiAmount(principal, r, n);
    var s := EmiSchedule(principal, r, e, n);
    EmiScheduleShape(principal, r, e, n);
    assert Balance(principal, r, e, n) == 0.0 by {
      EmiClearsLoan(principal, r, e, n);
    }
    assert s[n - 1] == EntryForMonth(principal, r, e, n);
    EmiPrincipalTelescopes(principal, r, e, n);
    EmiInterestTelescopes(principal, r, e, n);
  }

  /** For a positive rate and a non-negative loan, every row's balance is
      the exact outstanding balance: the clamp at zero never applies. */
  lemma EmiScheduleBalancesExact(principal: real, r: real, n: nat)
    requires r > 0.0 && principal >= 0.0 && n >= 1
    ensures Pow(1.0 + r, n) != 1.0
    ensures var e := EmiAmount(principal, r, n);
      var s := EmiSchedule(principal, r, e, n);
      forall k :: 0 <= k < |s| ==> s[k].balance == Balance(principal, r, e, k + 1)
  {
    PowAboveOne(1.0 + r, n);
    var e := EmiAmount(principal, r, n);
    var s := EmiSchedule(principal, r, e, n);
    EmiScheduleShape(principal, r, e, n);
    forall k | 0 <= k < |s|
      ensures s[k].balance == Balance(principal, r, e, k + 1)
    {
      EmiBalanceNonNegative(principal, r, n, k + 1);
    }
  }

  /** calculateEMI. At a zero rate the instalment is the loan spread evenly
      over the tenure and no schedule is produced. Otherwise the instalment
      is the formula's, the total payment is n instalments, and the schedule
      is the amortization of the loan under that instalment (whose properties
      EmiScheduleRepaysLoan and EmiScheduleBalancesExact state). */
  method CalculateEMI(principal: real, annualRatePercent: real, tenureYears: nat) returns (res: EmiResult)
    requires tenureYears >= 1
    requires MonthlyRate(annualRatePercent) != 0.0 ==>
      Pow(1.0 + MonthlyRate(annualRatePercent), Months(tenureYears)) != 1.0
    ensures res.principal == principal
    ensures res.totalPayment == TotalOf(res.emi, Months(tenureYears))
    ensures res.totalInterest == res.totalPayment - principal
    ensures MonthlyRate(annualRatePercent) == 0.0 ==>
      && res.totalPayment == principal && res.totalInterest == 0.0
      && res.amortizationSchedule == []
    ensures MonthlyRate(annualRatePercent) != 0.0 ==>
      && res.emi == EmiAmount(principal, MonthlyRate(annualRatePercent), Months(tenureYears))
      && res.amortizationSchedule
         == EmiSchedule(principal, MonthlyRate(annualRatePercent), res.emi, Months(tenureYears))
  {
    var monthlyRate := MonthlyRate(annualRatePercent);
    var months := Months(tenureYears);

    if monthlyRate == 0.0 {
      var emi := principal / (months as real);
      assert emi * (months as real) == principal;
      assert TotalOf(emi, months) == principal;
      return EmiResult(emi, principal, 0.0, principal, []);
    }

    var emi := EmiAmount(principal, monthlyRate, months);
    var totalPayment := TotalOf(emi, months);
    var totalInterest := totalPayment - principal;
    var amortizationSchedule := Amortize(principal, monthlyRate, emi, months);
    res := EmiResult(emi, totalPayment, totalInterest, principal, amortizationSchedule);
  }
}
