/** The Step-Up SIP calculator: an SIP whose monthly contribution is raised
    by a fixed percentage at every year boundary, simulated month by month. */
module StepUpSip {
  import opened Powers
  import opened Sums
  import opened Sip

  datatype YearEntry = YearEntry(year: nat, monthlyAmount: real, yearlyInvestment: real, yearEndValue: real)

  datatype StepUpResult = StepUpResult(
    totalInvestment: real,
    estimatedReturns: real,
    totalValue: real,
    yearWiseBreakdown: seq<YearEntry>)

  /** The months simulated per year. */
  const MonthsPerYear: nat := 12

  /** The factor by which the contribution grows each year. */
  function StepFactor(annualStepUpPercent: real): real
  {
    1.0 + annualStepUpPercent / 100.0
  }

  /** One month: the contribution m is added, then the balance earns the
      monthly rate i. */
  function AddThenGrow(v: real, m: real, i: real): real
  {
    (v + m) * (1.0 + i)
  }

  /** The balance v after k months of AddThenGrow with contribution m. */
  function GrowMonths(v: real, m: real, i: real, k: nat): real
  {
    if k == 0 then v else AddThenGrow(GrowMonths(v, m, i, k - 1), m, i)
  }

  /** The contribution after one yearly step-up. */
  function SteppedUp(m: real, annualStepUpPercent: real): real
  {
    m * StepFactor(annualStepUpPercent)
  }

  /** The monthly contribution during year y (years count from 1). */
  function MonthlyAmountInYear(initial: real, g: real, y: nat): real
    requires y >= 1
  {
    initial * Pow(g, y - 1)
  }

  /** Each year's contribution is the previous year's times the step-up factor. */
  lemma MonthlyAmountSteps(initial: real, g: real, y: nat)
    requires y >= 1
    ensures MonthlyAmountInYear(initial, g, y + 1) == MonthlyAmountInYear(initial, g, y) * g
  {
    var p := Pow(g, y - 1);
    calc {
      MonthlyAmountInYear(initial, g, y + 1);
      initial * (g * p);
      (initial * p) * g;
    }
  }

  /** The balance at the end of year y: twelve months of the year's
      contribution on top of the previous year-end balance. */
  function ValueAfterYears(initial: real, g: real, i: real, y: nat): real
  {
    if y == 0 then 0.0
    else GrowMonths(ValueAfterYears(initial, g, i, y - 1), MonthlyAmountInYear(initial, g, y), i, MonthsPerYear)
  }

  /** The breakdown entry of year y, as the month-by-month simulation
      produces it. */
  function EntryForYear(initial: real, g: real, i: real, y: nat): YearEntry
    requires y >= 1
  {
    YearEntry(y, MonthlyAmountInYear(initial, g, y), MonthlyAmountInYear(initial, g, y) * 12.0,
              ValueAfterYears(initial, g, i, y))
  }

  /** The breakdown of the first n years. */
  function Breakdown(initial: real, g: real, i: real, n: nat): seq<YearEntry>
  {
    if n == 0 then [] else Breakdown(initial, g, i, n - 1) + [EntryForYear(initial, g, i, n)]
  }

  function YearlyInvestment(e: YearEntry): real
  {
    e.yearlyInvestment
  }

  /** The breakdown of n years holds the entries of years 1 to n. */
  lemma {:induction false} BreakdownEntries(initial: real, g: real, i: real, n: nat)
    ensures var s := Breakdown(initial, g, i, n);
      |s| == n && forall k :: 0 <= k < n ==> s[k] == EntryForYear(initial, g, i, k + 1)
  {
    if n > 0 {
      BreakdownEntries(initial, g, i, n - 1);
    }
  }

  /** Every year's monthly amount in s is the previous year's times g. */
  predicate StepsUpBy(s: seq<YearEntry>, g: real)
  {
    forall k :: 1 <= k < |s| ==> s[k].monthlyAmount == s[k - 1].monthlyAmount * g
  }

  /** A breakdown made of these entries steps up by g every year. */
  lemma BreakdownStepsUp(s: seq<YearEntry>, initial: real, g: real, i: real)
    requires forall k :: 0 <= k < |s| ==> s[k] == EntryForYear(initial, g, i, k + 1)
    ensures StepsUpBy(s, g)
  {
    forall k | 1 <= k < |s|
      ensures s[k].monthlyAmount == s[k - 1].monthlyAmount * g
    {
      assert s[k - 1] == EntryForYear(initial, g, i, k);
      assert s[k] == EntryForYear(initial, g, i, k + 1);
      MonthlyAmountSteps(initial, g, k);
    }
  }

  /** The breakdown has one entry per year, numbered from 1; each year
      invests twelve times its monthly amount, which is the initial amount in
      the first year and the previous year's amount times the step-up factor
      afterwards; each year-end value is the simulated balance at that point,
      the last one the balance after all n years. */
  lemma BreakdownShape(initial: real, g: real, i: real, n: nat)
    ensures var s := Breakdown(initial, g, i, n);
      && |s| == n
      && (forall k :: 0 <= k < n ==>
            s[k].year == k + 1
            && s[k].yearlyInvestment == 12.0 * s[k].monthlyAmount
            && s[k].yearEndValue == ValueAfterYears(initial, g, i, k + 1))
      && (n >= 1 ==> s[0].monthlyAmount == initial)
      && StepsUpBy(s, g)
      && (n >= 1 ==> s[n - 1].yearEndValue == ValueAfterYears(initial, g, i, n))
  {
    var s := Breakdown(initial, g, i, n);
    BreakdownEntries(initial, g, i, n);
    BreakdownStepsUp(s, initial, g, i);
    if n >= 1 {
      assert s[0] == EntryForYear(initial, g, i, 1);
      assert s[n - 1] == EntryForYear(initial, g, i, n);
    }
  }

  /** calculateStepUpSIP. The breakdown is the year-by-year simulation
      (Breakdown, whose shape BreakdownShape states): one entry per year,
      numbered from 1, each investing twelve times its monthly amount, which
      steps up by the step-up factor every year; the total investment is the
      sum of the yearly investments, the last year-end value is the total
      value and the returns are value minus investment. */
  method CalculateStepUpSIP(initialMonthlyInvestment: real, annualStepUpPercent: real,
                            annualRatePercent: real, years: nat)
    returns (r: StepUpResult)
    ensures r.yearWiseBreakdown
         == Breakdown(initialMonthlyInvestment, StepFactor(annualStepUpPercent), MonthlyRate(annualRatePercent), years)
    ensures r.totalValue == ValueAfterYears(initialMonthlyInvestment, StepFactor(annualStepUpPercent), MonthlyRate(annualRatePercent), years)
    ensures r.totalInvestment == SumOf(r.yearWiseBreakdown, YearlyInvestment)
    ensures r.estimatedReturns == r.totalValue - r.totalInvestment
  {
    ghost var g := StepFactor(annualStepUpPercent);
    var monthlyRate := MonthlyRate(annualRatePercent);
    var totalValue := 0.0;
    var totalInvestment := 0.0;
    var yearWiseBreakdown: seq<YearEntry> := [];
    var currentMonthly := initialMonthlyInvestment;

    var year := 1;
    while year <= years
      invariant 1 <= year <= years + 1
      invariant currentMonthly == MonthlyAmountInYear(initialMonthlyInvestment, g, year)
      invariant totalValue == ValueAfterYears(initialMonthlyInvestment, g, monthlyRate, year - 1)
      invariant yearWiseBreakdown == Breakdown(initialMonthlyInvestment, g, monthlyRate, year - 1)
      invariant totalInvestment == SumOf(yearWiseBreakdown, YearlyInvestment)
    {
      var yearlyInvestment := currentMonthly * 12.0;
      ghost var start := totalValue;

      var month := 1;
      while month <= MonthsPerYear
        invariant 1 <= month <= MonthsPerYear + 1
        invariant totalValue == GrowMonths(start, currentMonthly, monthlyRate, month - 1)
      {
        totalValue := AddThenGrow(totalValue, currentMonthly, monthlyRate);
        month := month + 1;
      }

      var entry := YearEntry(year, currentMonthly, yearlyInvestment, totalValue);
      SumOfAppend(yearWiseBreakdown, [entry], YearlyInvestment);
      SumOfSingle(entry, YearlyInvestment);
      totalInvestment := totalInvestment + yearlyInvestment;
      yearWiseBreakdown := yearWiseBreakdown + [entry];

      MonthlyAmountSteps(initialMonthlyInvestment, g, year);
      currentMonthly := SteppedUp(currentMonthly, annualStepUpPercent);
      year := year + 1;
    }

    r := StepUpResult(totalInvestment, totalValue - totalInvestment, totalValue, yearWiseBreakdown);
  }

  /** k more months of a plain SIP on top of its own balance are the same
      SIP run k months longer. */
  lemma {:induction false} GrowMonthsExtendsSip(p: real, i: real, n: nat, k: nat)
    ensures GrowMonths(SipRecurrence(p, i, n), p, i, k) == SipRecurrence(p, i, n + k)
  {
    if k > 0 {
      GrowMonthsExtendsSip(p, i, n, k - 1);
    }
  }

  /** With a 0% step-up, the month-by-month simulation is the plain SIP
      recurrence over 12 * y months. */
  lemma {:induction false} ZeroStepUpIsSipRecurrence(p: real, i: real, y: nat)
    ensures ValueAfterYears(p, StepFactor(0.0), i, y) == SipRecurrence(p, i, 12 * y)
  {
    if y > 0 {
      ZeroStepUpIsSipRecurrence(p, i, y - 1);
      PowOne(y - 1);
      assert MonthlyAmountInYear(p, StepFactor(0.0), y) == p;
      GrowMonthsExtendsSip(p, i, 12 * (y - 1), MonthsPerYear);
    }
  }

  /** With a 0% step-up the Step-Up SIP total value is exactly the SIP
      calculator's closed-form total value. */
  lemma ZeroStepUpMatchesSip(p: real, annualRatePercent: real, years: nat)
    ensures ValueAfterYears(p, StepFactor(0.0), MonthlyRate(annualRatePercent), years)
         == CalculateSIP(p, annualRatePercent, years).totalValue
  {
    ZeroStepUpIsSipRecurrence(p, MonthlyRate(annualRatePercent), years);
  }
}
