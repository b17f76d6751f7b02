/** The SWP (systematic withdrawal plan) calculator: a corpus earns the
    monthly rate and a fixed amount is withdrawn each month, until the
    horizon is reached or the corpus is exhausted. */
module Swp {
  import opened Sums
  import opened Sip
  import opened Powers
  import opened Bounds

  datatype Option<T> = None | Some(value: T)

  datatype SwpEntry = SwpEntry(
    month: nat,
    openingBalance: real,
    withdrawal: real,
    interest: real,
    closingBalance: real)

  /** The result record; the source's alias fields (a second name for the
      total withdrawn and for the months lasted) are not repeated. */
  datatype SwpResult = SwpResult(
    initialInvestment: real,
    totalWithdrawal: real,
    finalBalance: real,
    monthsLasted: nat,
    monthlyBreakdown: seq<SwpEntry>)

  /** The months simulated when no horizon is given: 100 years. */
  const FallbackHorizonMonths: nat := 1200

  /** The horizon in months: years * 12 when a nonzero horizon is given;
      an absent or zero horizon (both falsy) falls back to 1200 months. */
  function MaxMonths(timePeriodYears: Option<nat>): nat
  {
    if timePeriodYears.Some? && timePeriodYears.value != 0 then timePeriodYears.value * 12
    else FallbackHorizonMonths
  }

  /** One month of the plan from the opening balance: interest accrues,
      then the withdrawal is taken, never more than the balance. */
  function SwpMonth(month: nat, balance: real, monthlyWithdrawal: real, i: real): SwpEntry
  {
    var interest := balance * i;
    var grown := balance + interest;
    var withdrawal := Min(monthlyWithdrawal, grown);
    SwpEntry(month, balance, withdrawal, interest, grown - withdrawal)
  }

  /** SwpMonth written out field by field. */
  lemma SwpMonthFields(month: nat, balance: real, monthlyWithdrawal: real, i: real)
    ensures SwpMonth(month, balance, monthlyWithdrawal, i)
         == SwpEntry(month, balance, Min(monthlyWithdrawal, balance + balance * i), balance * i,
                     (balance + balance * i) - Min(monthlyWithdrawal, balance + balance * i))
  {
  }

  /** The schedule from month `month` on, with `balance` at its start: no
      month runs past the horizon or from a non-positive balance, and the
      month that exhausts the corpus is the last one emitted. */
  function SwpSchedule(balance: real, monthlyWithdrawal: real, i: real, month: nat, maxMonths: nat): seq<SwpEntry>
    decreases maxMonths + 1 - month
  {
    if month > maxMonths || balance <= 0.0 then []
    else
      var e := SwpMonth(month, balance, monthlyWithdrawal, i);
      if e.closingBalance <= 0.0 then [e]
      else [e] + SwpSchedule(e.closingBalance, monthlyWithdrawal, i, month + 1, maxMonths)
  }

  /** The schedule from a positive balance inside the horizon starts with
      that month's entry and goes on from its closing balance unless the
      corpus is exhausted. */
  lemma SwpScheduleUnfold(balance: real, monthlyWithdrawal: real, i: real, month: nat, maxMonths: nat)
    requires month <= maxMonths && balance > 0.0
    ensures var e := SwpMonth(month, balance, monthlyWithdrawal, i);
      SwpSchedule(balance, monthlyWithdrawal, i, month, maxMonths)
        == [e] + (if e.closingBalance <= 0.0 then []
                  else SwpSchedule(e.closingBalance, monthlyWithdrawal, i, month + 1, maxMonths))
  {
  }

  /** The balance after the schedule s has run from the opening balance b. */
  function EndBalance(b: real, s: seq<SwpEntry>): real
  {
    if s == [] then b else s[|s| - 1].closingBalance
  }

  function Withdrawal(e: SwpEntry): real
  {
    e.withdrawal
  }

  function Interest(e: SwpEntry): real
  {
    e.interest
  }

  /** Months are numbered consecutively from `month`, and none runs past
      the horizon. */
  lemma {:induction false} SwpScheduleMonths(b: real, w: real, i: real, m: nat, maxMonths: nat)
    ensures var s := SwpSchedule(b, w, i, m, maxMonths);
      (s == [] || m + |s| <= maxMonths + 1) &&
      forall k :: 0 <= k < |s| ==> s[k].month == m + k
    decreases maxMonths + 1 - m
  {
    if m <= maxMonths && b > 0.0 {
      var e := SwpMonth(m, b, w, i);
      SwpScheduleUnfold(b, w, i, m, maxMonths);
      if e.closingBalance > 0.0 {
        SwpScheduleMonths(e.closingBalance, w, i, m + 1, maxMonths);
      }
    }
  }

  /** The laws of a single month from a positive opening balance. */
  lemma SwpMonthFacts(m: nat, b: real, w: real, i: real)
    requires b > 0.0
    ensures var e := SwpMonth(m, b, w, i);
      && e.month == m && e.openingBalance == b
      && e.interest == b * i
      && e.withdrawal == Min(w, b + e.interest)
      && e.withdrawal <= b + e.interest
      && e.closingBalance == b + e.interest - e.withdrawal
      && e.closingBalance >= 0.0
      && (w >= 0.0 && i >= 0.0 ==> e.withdrawal >= 0.0)
  {
    if w >= 0.0 && i >= 0.0 {
      MulNonNegative(b, i);
    }
  }

  /** The laws every emitted month obeys: it starts from a positive
      balance, earns interest on it, withdraws the lesser of the planned
      amount and the grown balance, and closes at the grown balance minus the
      withdrawal, which is never negative. */
  predicate ObeysMonthLaws(e: SwpEntry, w: real, i: real)
  {
    && e.openingBalance > 0.0
    && e.interest == e.openingBalance * i
    && e.withdrawal == Min(w, e.openingBalance + e.interest)
    && e.withdrawal <= e.openingBalance + e.interest
    && e.closingBalance == e.openingBalance + e.interest - e.withdrawal
    && e.closingBalance >= 0.0
    && (w >= 0.0 && i >= 0.0 ==> e.withdrawal >= 0.0)
  }

  lemma {:induction false} SwpMonthLaws(b: real, w: real, i: real, m: nat, maxMonths: nat)
    ensures var s := SwpSchedule(b, w, i, m, maxMonths);
      forall k :: 0 <= k < |s| ==> ObeysMonthLaws(s[k], w, i)
    decreases maxMonths + 1 - m
  {
    if m <= maxMonths && b > 0.0 {
      var e := SwpMonth(m, b, w, i);
      SwpScheduleUnfold(b, w, i, m, maxMonths);
      SwpMonthFacts(m, b, w, i);
      assert ObeysMonthLaws(e, w, i);
      if e.closingBalance > 0.0 {
        SwpMonthLaws(e.closingBalance, w, i, m + 1, maxMonths);
      }
    }
  }

  /** Each month opens with the previous month's closing balance, the first
      with the starting balance, and only the last month may close at or
      below zero: no month follows an exhausted corpus. */
  lemma {:induction false} SwpScheduleChained(b: real, w: real, i: real, m: nat, maxMonths: nat)
    ensures var s := SwpSchedule(b, w, i, m, maxMonths);
      && (s != [] ==> s[0].openingBalance == b)
      && forall k :: 0 <= k < |s| - 1 ==>
           s[k].closingBalance > 0.0 && s[k + 1].openingBalance == s[k].closingBalance
    decreases maxMonths + 1 - m
  {
    if m <= maxMonths && b > 0.0 {
      var e := SwpMonth(m, b, w, i);
      SwpScheduleUnfold(b, w, i, m, maxMonths);
      if e.closingBalance > 0.0 {
        SwpScheduleChained(e.closingBalance, w, i, m + 1, maxMonths);
      }
    }
  }

  /** The schedule is empty exactly when the corpus starts non-positive or
      the horizon is already passed; a schedule that stops before the
      horizon ends with an exhausted corpus. */
  lemma {:induction false} SwpStopsOnlyWhenExhausted(b: real, w: real, i: real, m: nat, maxMonths: nat)
    ensures var s := SwpSchedule(b, w, i, m, maxMonths);
      && (s == [] <==> (m > maxMonths || b <= 0.0))
      && (s != [] && m + |s| <= maxMonths ==> s[|s| - 1].closingBalance <= 0.0)
    decreases maxMonths + 1 - m
  {
    if m <= maxMonths && b > 0.0 {
      var e := SwpMonth(m, b, w, i);
      SwpScheduleUnfold(b, w, i, m, maxMonths);
      if e.closingBalance > 0.0 {
        SwpStopsOnlyWhenExhausted(e.closingBalance, w, i, m + 1, maxMonths);
      }
    }
  }

  /** Conservation: the balance left is the starting balance plus all the
      interest accrued minus all that was withdrawn. */
  lemma {:induction false} SwpConservation(b: real, w: real, i: real, m: nat, maxMonths: nat)
    ensures var s := SwpSchedule(b, w, i, m, maxMonths);
      EndBalance(b, s) == b + SumOf(s, Interest) - SumOf(s, Withdrawal)
    decreases maxMonths + 1 - m
  {
    if m <= maxMonths && b > 0.0 {
      var e := SwpMonth(m, b, w, i);
      SwpScheduleUnfold(b, w, i, m, maxMonths);
      var t := if e.closingBalance <= 0.0 then [] else SwpSchedule(e.closingBalance, w, i, m + 1, maxMonths);
      assert ([e] + t)[1..] == t;
      if e.closingBalance > 0.0 {
        SwpConservation(e.closingBalance, w, i, m + 1, maxMonths);
        assert t != [] ==> EndBalance(b, [e] + t) == EndBalance(e.closingBalance, t);
      }
    }
  }

  /** A larger balance earns at least as much interest, so a withdrawal
      below the interest stays below it. */
  lemma InterestStaysAhead(b: real, c: real, w: real, i: real)
    requires i >= 0.0 && c > b && w < b * i
    ensures w < c * i
  {
    MulNonNegative(c - b, i);
    assert (c - b) * i == c * i - b * i;
  }

  /** When the monthly withdrawal is below the monthly interest on the
      balance, every month withdraws in full, the corpus grows, and the
      plan runs to the horizon. */
  lemma {:induction false} SwpNonDepleting(b: real, w: real, i: real, m: nat, maxMonths: nat)
    requires i >= 0.0 && b > 0.0 && w < b * i && m <= maxMonths + 1
    ensures var s := SwpSchedule(b, w, i, m, maxMonths);
      && |s| == maxMonths + 1 - m
      && (m <= maxMonths ==> EndBalance(b, s) > b)
      && (forall k :: 0 <= k < |s| ==>
            s[k].withdrawal == w && s[k].closingBalance > s[k].openingBalance)
    decreases maxMonths + 1 - m
  {
    if m <= maxMonths {
      var e := SwpMonth(m, b, w, i);
      SwpScheduleUnfold(b, w, i, m, maxMonths);
      assert e.withdrawal == w;
      var c := e.closingBalance;
      assert c > b;
      InterestStaysAhead(b, c, w, i);
      SwpNonDepleting(c, w, i, m + 1, maxMonths);
      var t := SwpSchedule(c, w, i, m + 1, maxMonths);
      assert t != [] ==> EndBalance(b, [e] + t) == EndBalance(c, t);
      var s := [e] + t;
      forall k | 0 <= k < |s|
        ensures s[k].withdrawal == w && s[k].closingBalance > s[k].openingBalance
      {
        if k > 0 {
          assert s[k] == t[k - 1];
        }
      }
    }
  }

  /** With a horizon of y >= 1 years and a yearly withdrawal below a year's
      simple interest on the corpus, the plan lasts the whole horizon and the
      final balance exceeds the initial investment. */
  lemma SwpCorpusGrows(initialInvestment: real, monthlyWithdrawal: real, annualRatePercent: real, y: nat)
    requires y >= 1 && initialInvestment > 0.0 && annualRatePercent >= 0.0
    requires monthlyWithdrawal * 12.0 < initialInvestment * (annualRatePercent / 100.0)
    ensures var s := SwpSchedule(initialInvestment, monthlyWithdrawal, MonthlyRate(annualRatePercent), 1, MaxMonths(Some(y)));
      |s| == 12 * y && Max(0.0, EndBalance(initialInvestment, s)) > initialInvestment
  {
    var i := MonthlyRate(annualRatePercent);
    assert initialInvestment * (annualRatePercent / 100.0) == 12.0 * (initialInvestment * i);
    SwpNonDepleting(initialInvestment, monthlyWithdrawal, i, 1, 12 * y);
  }

  /** At a zero rate a positive corpus b drawn down by w > 0 lasts exactly
      k months when (k-1)*w < b <= k*w, provided the horizon allows k months,
      and ends at zero; the last withdrawal is the partial remainder. */
  lemma {:induction false} SwpZeroRateExhaustion(b: real, w: real, k: nat, m: nat, maxMonths: nat)
    requires w > 0.0 && k >= 1
    requires ((k - 1) as real) * w < b <= (k as real) * w
    requires m + k <= maxMonths + 1
    ensures var s := SwpSchedule(b, w, 0.0, m, maxMonths);
      |s| == k && EndBalance(b, s) == 0.0
    decreases k
  {
    var e := SwpMonth(m, b, w, 0.0);
    assert ((k - 1) as real) * w >= 0.0;
    SwpScheduleUnfold(b, w, 0.0, m, maxMonths);
    if b <= w {
      assert e.closingBalance == 0.0;
      assert k == 1;
    } else {
      assert e.closingBalance == b - w;
      assert k >= 2;
      assert ((k - 1) as real) * w == (k as real) * w - w;
      assert ((k - 2) as real) * w == ((k - 1) as real) * w - w;
      SwpZeroRateExhaustion(b - w, w, k - 1, m + 1, maxMonths);
      var t := SwpSchedule(b - w, w, 0.0, m + 1, maxMonths);
      assert EndBalance(b, [e] + t) == EndBalance(b - w, t);
    }
  }

  /** A corpus of 100000 drawn down by 50000 a month at 0% is exhausted
      after exactly two months, with no horizon (1200 months) and with any
      horizon of two months or more. */
  lemma SwpDepletionExample(maxMonths: nat)
    requires maxMonths >= 2
    ensures var s := SwpSchedule(100000.0, 50000.0, MonthlyRate(0.0), 1, maxMonths);
      |s| == 2 && Max(0.0, EndBalance(100000.0, s)) == 0.0
  {
    assert MonthlyRate(0.0) == 0.0;
    SwpZeroRateExhaustion(100000.0, 50000.0, 2, 1, maxMonths);
  }

  /** One month of the simulation keeps the schedule, the balance and the
      running total of withdrawals in step with the specification. */
  lemma SwpScheduleStep(done: seq<SwpEntry>, b0: real, b: real, w: real, i: real, m: nat, maxMonths: nat)
    requires m <= maxMonths && b > 0.0
    ensures var e := SwpMonth(m, b, w, i);
      && EndBalance(b0, done + [e]) == e.closingBalance
      && SumOf(done + [e], Withdrawal) == SumOf(done, Withdrawal) + e.withdrawal
      && (e.closingBalance <= 0.0 ==> done + SwpSchedule(b, w, i, m, maxMonths) == done + [e])
      && (e.closingBalance > 0.0 ==>
            done + SwpSchedule(b, w, i, m, maxMonths)
              == (done + [e]) + SwpSchedule(e.closingBalance, w, i, m + 1, maxMonths))
  {
    var e := SwpMonth(m, b, w, i);
    SwpScheduleUnfold(b, w, i, m, maxMonths);
    SumOfAppend(done, [e], Withdrawal);
    SumOfSingle(e, Withdrawal);
    if e.closingBalance > 0.0 {
      var t := SwpSchedule(e.closingBalance, w, i, m + 1, maxMonths);
      assert done + ([e] + t) == (done + [e]) + t;
    }
  }

  /** What the whole plan from month 1 leaves: it lasts no longer than the
      horizon; the balance left is the initial investment plus the interest
      earned minus the amount withdrawn, and clamped at zero it is never
      negative; a non-positive investment runs no
      month, withdraws nothing and leaves nothing. */
  lemma SwpOutcome(b: real, w: real, i: real, maxMonths: nat)
    ensures var s := SwpSchedule(b, w, i, 1, maxMonths);
      && |s| <= maxMonths
      && Max(0.0, EndBalance(b, s)) >= 0.0
      && EndBalance(b, s) == b + SumOf(s, Interest) - SumOf(s, Withdrawal)
      && (b <= 0.0 ==> |s| == 0 && SumOf(s, Withdrawal) == 0.0 && Max(0.0, EndBalance(b, s)) == 0.0)
  {
    SwpScheduleMonths(b, w, i, 1, maxMonths);
    SwpConservation(b, w, i, 1, maxMonths);
  }

  /** The month-by-month loop of calculateSWP from month 1 to the horizon:
      it emits exactly the schedule, counts its months, keeps the running
      total of withdrawals and ends at the balance the schedule leaves. */
  method RunWithdrawals(initialInvestment: real, monthlyWithdrawal: real, monthlyRate: real, maxMonths: nat)
    returns (balance: real, totalWithdrawal: real, monthsLasted: nat, monthlyBreakdown: seq<SwpEntry>)
    ensures monthlyBreakdown == SwpSchedule(initialInvestment, monthlyWithdrawal, monthlyRate, 1, maxMonths)
    ensures monthsLasted == |monthlyBreakdown|
    ensures balance == EndBalance(initialInvestment, monthlyBreakdown)
    ensures totalWithdrawal == SumOf(monthlyBreakdown, Withdrawal)
  {
    balance := initialInvestment;
    totalWithdrawal := 0.0;
    monthsLasted := 0;
    monthlyBreakdown := [];
    ghost var full := SwpSchedule(initialInvestment, monthlyWithdrawal, monthlyRate, 1, maxMonths);

    var month := 1;
    while month <= maxMonths
      invariant 1 <= month <= maxMonths + 1
      invariant monthsLasted == |monthlyBreakdown| == month - 1
      invariant monthlyBreakdown + SwpSchedule(balance, monthlyWithdrawal, monthlyRate, month, maxMonths) == full
      invariant balance == EndBalance(initialInvestment, monthlyBreakdown)
      invariant totalWithdrawal == SumOf(monthlyBreakdown, Withdrawal)
    {
      if balance <= 0.0 {
        break;
      }

      var openingBalance := balance;
      SwpScheduleStep(monthlyBreakdown, initialInvestment, openingBalance, monthlyWithdrawal, monthlyRate, month, maxMonths);
      SwpMonthFields(month, openingBalance, monthlyWithdrawal, monthlyRate);
      var interest := balance * monthlyRate;
      balance := balance + interest;

      var withdrawal := Min(monthlyWithdrawal, balance);
      balance := balance - withdrawal;
      totalWithdrawal := totalWithdrawal + withdrawal;
      monthsLasted := month;

      var entry := SwpEntry(month, openingBalance, withdrawal, interest, balance);
      assert entry == SwpMonth(month, openingBalance, monthlyWithdrawal, monthlyRate);
      monthlyBreakdown := monthlyBreakdown + [entry];

      if balance <= 0.0 {
        break;
      }
      month := month + 1;
    }
  }

  /** calculateSWP: the breakdown is the schedule from month 1 to the
      horizon; months lasted is its length and never exceeds the horizon;
      the total withdrawal is the sum of its withdrawals; the final balance
      is the balance left clamped at zero, and the balance left is the
      initial investment plus the interest earned minus the amount
      withdrawn; a non-positive investment runs no month at all. */
  method CalculateSWP(initialInvestment: real, monthlyWithdrawal: real, annualRatePercent: real,
                      timePeriodYears: Option<nat>)
    returns (r: SwpResult)
    ensures r.initialInvestment == initialInvestment
    ensures r.monthlyBreakdown
         == SwpSchedule(initialInvestment, monthlyWithdrawal, MonthlyRate(annualRatePercent), 1, MaxMonths(timePeriodYears))
    ensures r.monthsLasted == |r.monthlyBreakdown| <= MaxMonths(timePeriodYears)
    ensures r.totalWithdrawal == SumOf(r.monthlyBreakdown, Withdrawal)
    ensures r.finalBalance == Max(0.0, EndBalance(initialInvestment, r.monthlyBreakdown))
    ensures r.finalBalance >= 0.0
    ensures EndBalance(initialInvestment, r.monthlyBreakdown)
         == initialInvestment + SumOf(r.monthlyBreakdown, Interest) - r.totalWithdrawal
    ensures initialInvestment <= 0.0 ==> r.monthsLasted == 0 && r.totalWithdrawal == 0.0 && r.finalBalance == 0.0
  {
    var monthlyRate := MonthlyRate(annualRatePercent);
    var maxMonths := MaxMonths(timePeriodYears);
    var balance, totalWithdrawal, monthsLasted, monthlyBreakdown :=
      RunWithdrawals(initialInvestment, monthlyWithdrawal, monthlyRate, maxMonths);
    SwpOutcome(initialInvestment, monthlyWithdrawal, monthlyRate, maxMonths);
    r := SwpResult(initialInvestment, totalWithdrawal, Max(0.0, balance), monthsLasted, monthlyBreakdown);
  }
}
