/** The FD (fixed deposit) calculator: a single deposit under either simple
    interest, A = P * (1 + r*t), or periodic compounding, A = P * (1 + r/n)^(n*t). */
module FixedDeposit {
  import opened Powers
  import Lumpsum

  datatype FdResult = FdResult(principal: real, interestEarned: real, maturityValue: real)

  /** The frequency the calculator compounds at when the caller gives none:
      quarterly. */
  const DefaultCompoundingFrequency: nat := 4

  /** calculateFD. With simple interest the interest is principal * rate *
      years; with compounding the result is the Lumpsum calculator's at the
      same frequency; interest earned is maturity value minus principal. */
  function CalculateFD(principal: real, annualRatePercent: real, years: nat, frequency: nat,
                       isSimpleInterest: bool): (r: FdResult)
    requires isSimpleInterest || frequency >= 1
    ensures r.principal == principal
    ensures r.interestEarned == r.maturityValue - principal
    ensures isSimpleInterest ==>
      r.interestEarned == principal * (annualRatePercent / 100.0) * (years as real)
    ensures !isSimpleInterest ==>
      var l := Lumpsum.CalculateLumpsum(principal, annualRatePercent, years, frequency);
      r.maturityValue == l.totalValue && r.interestEarned == l.estimatedReturns
    ensures annualRatePercent == 0.0 ==> r.maturityValue == principal && r.interestEarned == 0.0
  {
    var rate := annualRatePercent / 100.0;
    var maturityValue :=
      if isSimpleInterest then principal * (1.0 + rate * (years as real))
      else Lumpsum.CompoundedValue(principal, annualRatePercent, years, frequency);
    assert isSimpleInterest ==> maturityValue - principal == principal * rate * (years as real);
    FdResult(principal, maturityValue - principal, maturityValue)
  }

  /** For a non-negative principal and rate, compounding at any frequency
      yields at least the simple-interest maturity value. */
  lemma CompoundAtLeastSimple(principal: real, annualRatePercent: real, years: nat, frequency: nat)
    requires frequency >= 1
    requires principal >= 0.0 && annualRatePercent >= 0.0
    ensures CalculateFD(principal, annualRatePercent, years, frequency, false).maturityValue
         >= CalculateFD(principal, annualRatePercent, years, frequency, true).maturityValue
  {
    Lumpsum.CompoundingBeatsSimple(principal, annualRatePercent, years, frequency);
  }

  /** Simple interest is linear in time: the interest of t1 + t2 years is
      the sum of the interests of t1 and of t2 years. */
  lemma SimpleInterestAdditive(principal: real, annualRatePercent: real, t1: nat, t2: nat)
    ensures CalculateFD(principal, annualRatePercent, t1 + t2, 0, true).interestEarned
         == CalculateFD(principal, annualRatePercent, t1, 0, true).interestEarned
          + CalculateFD(principal, annualRatePercent, t2, 0, true).interestEarned
  {
    var c := principal * (annualRatePercent / 100.0);
    assert c * ((t1 + t2) as real) == c * (t1 as real) + c * (t2 as real);
  }

  /** A call that gives neither a frequency nor the simple-interest flag
      compounds quarterly: four periods a year, each at a quarter of the
      decimal rate. */
  lemma FdDefaultArguments(principal: real, annualRatePercent: real, years: nat)
    ensures CalculateFD(principal, annualRatePercent, years, DefaultCompoundingFrequency, false).maturityValue
         == principal * Pow(1.0 + annualRatePercent / 100.0 / 4.0, 4 * years)
  {
  }
}
