/** The SIP (systematic investment plan) calculator: a level monthly
    contribution, each made at the start of a month and compounded monthly
    (an annuity-due). */
module Sip {
  import opened Powers

  datatype SipResult = SipResult(totalInvestment: real, estimatedReturns: real, totalValue: real)

  /** The monthly rate of an annual percentage rate, as a fraction. */
  function MonthlyRate(annualRatePercent: real): (i: real)
    ensures i == 0.0 <==> annualRatePercent == 0.0
    ensures i >= 0.0 <==> annualRatePercent >= 0.0
  {
    annualRatePercent / 12.0 / 100.0
  }

  /** The value after n months of the step "add the contribution p, then
      grow the balance by one month's interest", starting from nothing.
      This is the month-by-month reading of an annuity-due. */
  function SipRecurrence(p: real, i: real, n: nat): real
  {
    if n == 0 then 0.0 else (SipRecurrence(p, i, n - 1) + p) * (1.0 + i)
  }

  /** s times the rate i is the closed-form numerator p * (q - 1) * (1 + i),
      q standing for the growth (1 + i)^n. */
  predicate TimesRateIsNumerator(s: real, p: real, i: real, q: real)
  {
    s * i == p * (q - 1.0) * (1.0 + i)
  }

  /** One more month of the recurrence keeps the numerator relation, with
      the growth multiplied by 1 + i. */
  lemma StepAlgebra(s: real, p: real, i: real, q: real)
    requires TimesRateIsNumerator(s, p, i, q)
    ensures TimesRateIsNumerator((s + p) * (1.0 + i), p, i, (1.0 + i) * q)
  {
    calc {
      (s + p) * (1.0 + i) * i;
      (s * i + p * i) * (1.0 + i);
      (p * (q - 1.0) * (1.0 + i) + p * i) * (1.0 + i);
      p * ((1.0 + i) * q - 1.0) * (1.0 + i);
    }
  }

  lemma DivAlgebra(p: real, a: real, i: real, s: real)
    requires i != 0.0 && s * i == p * a * (1.0 + i)
    ensures p * (a / i) * (1.0 + i) == s
  {
    var d := a / i;
    assert d * i == a;
    assert (p * d * (1.0 + i)) * i == s * i;
  }

  /** The recurrence multiplied by the rate is the numerator of the closed
      form: SipRecurrence(p, i, n) * i == p * ((1 + i)^n - 1) * (1 + i). */
  lemma {:induction false} RecurrenceTimesRate(p: real, i: real, n: nat)
    ensures TimesRateIsNumerator(SipRecurrence(p, i, n), p, i, Pow(1.0 + i, n))
  {
    if n > 0 {
      RecurrenceTimesRate(p, i, n - 1);
      StepAlgebra(SipRecurrence(p, i, n - 1), p, i, Pow(1.0 + i, n - 1));
    }
  }

  /** The annuity-due closed form M = P * ((1+i)^n - 1) / i * (1+i). */
  function SipClosedForm(p: real, i: real, n: nat): real
    requires i != 0.0
  {
    p * ((Pow(1.0 + i, n) - 1.0) / i) * (1.0 + i)
  }

  /** The closed form is the month-by-month recurrence, whenever the
      monthly rate is nonzero. */
  lemma SipClosedFormIsRecurrence(p: real, i: real, n: nat)
    requires i != 0.0
    ensures SipClosedForm(p, i, n) == SipRecurrence(p, i, n)
  {
    RecurrenceTimesRate(p, i, n);
    DivAlgebra(p, Pow(1.0 + i, n) - 1.0, i, SipRecurrence(p, i, n));
  }

  /** With no interest the recurrence is the plain sum of the contributions. */
  lemma {:induction false} ZeroRateRecurrence(p: real, n: nat)
    ensures SipRecurrence(p, 0.0, n) == p * (n as real)
  {
    if n > 0 {
      ZeroRateRecurrence(p, n - 1);
    }
  }

  /** With non-negative contributions and rate, the recurrence never falls
      below the amount paid in. */
  lemma {:induction false} RecurrenceAtLeastPaidIn(p: real, i: real, n: nat)
    requires p >= 0.0 && i >= 0.0
    ensures SipRecurrence(p, i, n) >= p * (n as real)
  {
    if n > 0 {
      RecurrenceAtLeastPaidIn(p, i, n - 1);
      var s := SipRecurrence(p, i, n - 1) + p;
      assert s >= 0.0;
      assert s * (1.0 + i) >= s by {
        assert s * i >= 0.0;
      }
    }
  }

  /** calculateSIP: the zero-rate branch returns the plain sum, otherwise
      the annuity-due closed form; returns are value minus investment. */
  function CalculateSIP(monthlyInvestment: real, annualRatePercent: real, years: nat): (r: SipResult)
    ensures r.totalInvestment == monthlyInvestment * ((12 * years) as real)
    ensures r.estimatedReturns == r.totalValue - r.totalInvestment
    ensures r.totalValue == SipRecurrence(monthlyInvestment, MonthlyRate(annualRatePercent), 12 * years)
    ensures annualRatePercent == 0.0 ==> r.totalValue == r.totalInvestment && r.estimatedReturns == 0.0
    ensures monthlyInvestment >= 0.0 && annualRatePercent >= 0.0 ==> r.estimatedReturns >= 0.0
  {
    var i := MonthlyRate(annualRatePercent);
    var months := 12 * years;
    if i == 0.0 then
      ZeroRateRecurrence(monthlyInvestment, months);
      var totalInvestment := monthlyInvestment * (months as real);
      SipResult(totalInvestment, 0.0, totalInvestment)
    else
      SipClosedFormIsRecurrence(monthlyInvestment, i, months);
      assert monthlyInvestment >= 0.0 && i >= 0.0 ==> SipRecurrence(monthlyInvestment, i, months) >= monthlyInvestment * (months as real) by {
        if monthlyInvestment >= 0.0 && i >= 0.0 {
          RecurrenceAtLeastPaidIn(monthlyInvestment, i, months);
        }
      }
      var totalValue := SipClosedForm(monthlyInvestment, i, months);
      var totalInvestment := monthlyInvestment * (months as real);
      SipResult(totalInvestment, totalValue - totalInvestment, totalValue)
  }
}
