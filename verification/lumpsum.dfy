/** The Lumpsum calculator: a single deposit under periodic compounding,
    A = P * (1 + r/n)^(n*t). */
module Lumpsum {
  import opened Powers

  datatype LumpsumResult = LumpsumResult(principal: real, estimatedReturns: real, totalValue: real)

  /** The frequency the calculator compounds at when the caller gives none:
      monthly. */
  const DefaultCompoundingFrequency: nat := 12

  /** The growth of one compounding period: 1 + r/n, r the decimal rate. */
  function PeriodFactor(annualRatePercent: real, frequency: nat): real
    requires frequency >= 1
  {
    1.0 + annualRatePercent / 100.0 / (frequency as real)
  }

  /** P * (1 + r/n)^(n*t). */
  function CompoundedValue(principal: real, annualRatePercent: real, years: nat, frequency: nat): real
    requires frequency >= 1
  {
    principal * Pow(PeriodFactor(annualRatePercent, frequency), frequency * years)
  }

  /** n*t periods at rate r/n earn at least the simple interest r*t. */
  lemma {:induction false} CompoundingBeatsSimple(principal: real, annualRatePercent: real, years: nat, frequency: nat)
    requires frequency >= 1
    requires principal >= 0.0 && annualRatePercent >= 0.0
    ensures CompoundedValue(principal, annualRatePercent, years, frequency)
         >= principal * (1.0 + annualRatePercent / 100.0 * (years as real))
  {
    var f := frequency as real;
    var x := annualRatePercent / 100.0 / f;
    var k := frequency * years;
    Bernoulli(x, k);
    assert (k as real) * x == annualRatePercent / 100.0 * (years as real) by {
      assert (k as real) == f * (years as real);
      assert f * x == annualRatePercent / 100.0;
    }
    var p := Pow(1.0 + x, k);
    var s := 1.0 + annualRatePercent / 100.0 * (years as real);
    assert principal * (p - s) >= 0.0 by {
      MulNonNegative(principal, p - s);
    }
  }

  /** Compounding at rate zero leaves the deposit unchanged. */
  lemma ZeroRateCompounding(principal: real, years: nat, frequency: nat)
    requires frequency >= 1
    ensures CompoundedValue(principal, 0.0, years, frequency) == principal
  {
    assert PeriodFactor(0.0, frequency) == 1.0;
    PowOne(frequency * years);
  }

  /** calculateLumpsum: the compounded value, and returns as value minus
      principal; these are non-negative for a non-negative rate, at least the
      simple interest, and positive once a positive rate runs for a year. */
  function CalculateLumpsum(principal: real, annualRatePercent: real, years: nat, frequency: nat): (r: LumpsumResult)
    requires frequency >= 1
    ensures r.principal == principal
    ensures r.estimatedReturns == r.totalValue - principal
    ensures r.totalValue == CompoundedValue(principal, annualRatePercent, years, frequency)
    ensures annualRatePercent == 0.0 ==> r.totalValue == principal && r.estimatedReturns == 0.0
    ensures principal >= 0.0 && annualRatePercent >= 0.0 ==>
      r.totalValue >= principal * (1.0 + annualRatePercent / 100.0 * (years as real))
    ensures principal > 0.0 && annualRatePercent > 0.0 && years >= 1 ==> r.estimatedReturns > 0.0
  {
    var totalValue := CompoundedValue(principal, annualRatePercent, years, frequency);
    assert annualRatePercent == 0.0 ==> totalValue == principal by {
      if annualRatePercent == 0.0 {
        ZeroRateCompounding(principal, years, frequency);
      }
    }
    assert principal >= 0.0 && annualRatePercent >= 0.0 ==>
      totalValue >= principal * (1.0 + annualRatePercent / 100.0 * (years as real)) by {
      if principal >= 0.0 && annualRatePercent >= 0.0 {
        CompoundingBeatsSimple(principal, annualRatePercent, years, frequency);
      }
    }
    assert principal > 0.0 && annualRatePercent > 0.0 && years >= 1 ==> totalValue > principal by {
      if principal > 0.0 && annualRatePercent > 0.0 && years >= 1 {
        var gain := annualRatePercent / 100.0 * (years as real);
        assert gain > 0.0;
        assert principal * gain > 0.0;
        assert principal * (1.0 + gain) == principal + principal * gain;
      }
    }
    LumpsumResult(principal, totalValue - principal, totalValue)
  }

  lemma MulDistributes(f: nat, t1: nat, t2: nat)
    ensures f * (t1 + t2) == f * t1 + f * t2
  {
  }

  /** Compounding the value after t1 years for t2 more years is compounding
      the principal for t1 + t2 years. */
  lemma CompoundedValueReinvested(principal: real, annualRatePercent: real, t1: nat, t2: nat, frequency: nat)
    requires frequency >= 1
    ensures CompoundedValue(CompoundedValue(principal, annualRatePercent, t1, frequency), annualRatePercent, t2, frequency)
         == CompoundedValue(principal, annualRatePercent, t1 + t2, frequency)
  {
    var b := PeriodFactor(annualRatePercent, frequency);
    var n1 := frequency * t1;
    var n2 := frequency * t2;
    var p1 := Pow(b, n1);
    var p2 := Pow(b, n2);
    var v1 := CompoundedValue(principal, annualRatePercent, t1, frequency);
    assert CompoundedValue(v1, annualRatePercent, t2, frequency) == (principal * p1) * p2;
    assert CompoundedValue(principal, annualRatePercent, t1 + t2, frequency) == principal * Pow(b, n1 + n2) by {
      MulDistributes(frequency, t1, t2);
    }
    assert Pow(b, n1 + n2) == p1 * p2 by {
      PowAdd(b, n1, n2);
    }
  }

  /** Reinvesting the value after t1 years for t2 more years gives the value
      of investing for t1 + t2 years. */
  lemma LumpsumReinvestment(principal: real, annualRatePercent: real, t1: nat, t2: nat, frequency: nat)
    requires frequency >= 1
    ensures CalculateLumpsum(CalculateLumpsum(principal, annualRatePercent, t1, frequency).totalValue,
                             annualRatePercent, t2, frequency).totalValue
         == CalculateLumpsum(principal, annualRatePercent, t1 + t2, frequency).totalValue
  {
    CompoundedValueReinvested(principal, annualRatePercent, t1, t2, frequency);
  }

  /** A call that gives no frequency compounds monthly: twelve periods a
      year, each at a twelfth of the decimal rate. */
  lemma LumpsumDefaultFrequency(principal: real, annualRatePercent: real, years: nat)
    ensures CalculateLumpsum(principal, annualRatePercent, years, DefaultCompoundingFrequency).totalValue
         == principal * Pow(1.0 + annualRatePercent / 100.0 / 12.0, 12 * years)
  {
  }
}
