# Financial calculation engine — a verified Dafny model

This project models the calculation engine of a personal-finance calculator
web application, `lib/formulas.ts`. It covers the seven calculators and the
character filter used when numbers are read back from formatted text:

- **SIP** (systematic investment plan): a level monthly contribution,
  compounded monthly as an annuity-due, with a zero-rate branch.
- **Step-Up SIP**: a year-by-year, month-by-month simulation whose monthly
  contribution is raised by a fixed percentage every year, together with a
  per-year breakdown.
- **Lumpsum** and **FD** (fixed deposit): periodic compound interest. FD also
  has a simple-interest branch.
- **SWP** (systematic withdrawal plan): a monthly state machine that adds
  interest and then withdraws a fixed amount. It stops at the horizon or when
  the corpus is exhausted, and emits a monthly schedule.
- **RD** (recurring deposit): monthly deposits, each compounded quarterly for
  the months it remains invested.
- **EMI** (equated monthly instalment): the level loan instalment and its
  amortization schedule, with a zero-rate branch.
- The filter of `parseFormattedNumber`, which keeps only digits, `.` and `-`.

Money and rates are exact `real`s. The identities the calculators are built
on therefore hold exactly, and the model proves them outright. For example,
the EMI schedule's last balance is exactly zero. `Math.pow` with a whole
exponent is `Powers.Pow`.

The imperative calculators are Dafny methods with `while` loops: Step-Up SIP,
SWP, RD and the EMI schedule. Each is proved against a recursive
specification function, and lemmas about those functions state what the
calculator promises. The straight-line calculators are functions: SIP,
Lumpsum and FD.

Modules:

- `Powers`: whole-number powers.
- `Sums`: sums over a sequence.
- `Bounds`: `Math.min` and `Math.max`.
- One module per calculator: `Sip`, `StepUpSip`, `Lumpsum`, `FixedDeposit`,
  `Swp`, `RecurringDeposit`, `Emi`.
- `NumberFilter`: the character filter.

calculateSWP tests the horizon for truthiness (lib/formulas.ts:155), so an
absent horizon and a horizon of 0 both give 1200 months (`Swp.MaxMonths`).

## Model

| member | source | states |
|---|---|---|
| Powers.Pow | lib/formulas.ts:34 | Math.pow with a whole exponent, b multiplied by itself n times; Powers.PowAdd, Powers.PowMul, Powers.PowPositive, Powers.PowMonotone, Powers.PowAboveOne and Powers.Bernoulli state its properties |
| Bounds.Min | lib/formulas.ts:168 | Math.min, the smaller of two amounts; Swp.SwpMonthLaws states what it gives the withdrawal |
| Bounds.Max | lib/formulas.ts:188 | Math.max, the larger of two amounts; Swp.SwpOutcome and Emi.EmiScheduleBalancesExact state what the clamp at zero gives |
| Sip.SipRecurrence | lib/formulas.ts:79 | the month-by-month annuity-due step "add the contribution, then grow by 1+i" repeated n times; the reference that Sip.SipClosedFormIsRecurrence and Sip.ZeroRateRecurrence tie calculateSIP's two branches to |
| Sip.SipClosedForm | lib/formulas.ts:33-35 | P·((1+i)^n−1)/i·(1+i); Sip.SipClosedFormIsRecurrence states it equals the recurrence |
| Sip.MonthlyRate | lib/formulas.ts:21 | the monthly rate is zero exactly when the annual rate is zero, and non-negative exactly when the annual rate is |
| Sip.CalculateSIP | lib/formulas.ts:16-45 | total investment is the contribution times 12·years; returns are value minus investment; the value (zero-rate branch or closed form) is the month-by-month annuity-due recurrence; at 0% the value is the investment and returns are 0; non-negative inputs give non-negative returns |
| Sip.SipClosedFormIsRecurrence | lib/formulas.ts:33-35 | for a nonzero monthly rate, the closed form P·((1+i)^n−1)/i·(1+i) equals n steps of "add P, then grow by 1+i" |
| Sip.RecurrenceTimesRate | lib/formulas.ts:33-35 | the recurrence times the rate equals the closed form's numerator P·((1+i)^n−1)·(1+i) |
| Sip.ZeroRateRecurrence | lib/formulas.ts:24-30 | at rate 0 the recurrence is the plain sum P·n, which the zero-rate branch returns |
| Sip.RecurrenceAtLeastPaidIn | lib/formulas.ts:33-38 | with non-negative contribution and rate, the value is never below the amount paid in |
| StepUpSip.StepFactor | lib/formulas.ts:90 | the yearly growth 1 + step/100 of the contribution; StepUpSip.MonthlyAmountSteps and StepUpSip.BreakdownShape state the step-up it gives |
| StepUpSip.SteppedUp | lib/formulas.ts:90 | the contribution times the step factor, as the loop updates it; StepUpSip.CalculateStepUpSIP's invariant ties it to StepUpSip.MonthlyAmountInYear |
| StepUpSip.MonthlyAmountInYear | lib/formulas.ts:73-90 | year y's contribution, initial·g^(y−1); StepUpSip.MonthlyAmountSteps states the yearly step |
| StepUpSip.AddThenGrow | lib/formulas.ts:79 | one inner-loop month, (v + m)·(1 + i); StepUpSip.GrowMonthsExtendsSip ties it to the SIP recurrence |
| StepUpSip.GrowMonths | lib/formulas.ts:78-80 | the inner loop, k months of AddThenGrow; StepUpSip.GrowMonthsExtendsSip states its properties |
| StepUpSip.ValueAfterYears | lib/formulas.ts:75-80 | the balance after y years of the nested loop; StepUpSip.ZeroStepUpIsSipRecurrence and StepUpSip.BreakdownShape state its properties |
| StepUpSip.EntryForYear | lib/formulas.ts:76-88 | the breakdown entry the loop pushes for year y; StepUpSip.BreakdownShape states its fields |
| StepUpSip.Breakdown | lib/formulas.ts:75-91 | the breakdown of the first n years; StepUpSip.BreakdownEntries and StepUpSip.BreakdownShape state its shape |
| StepUpSip.MonthlyAmountSteps | lib/formulas.ts:90 | each year's monthly contribution is the previous year's times (1 + step/100) |
| StepUpSip.BreakdownEntries | lib/formulas.ts:75-91 | the breakdown after n years has n entries, entry k being year k+1's entry |
| StepUpSip.BreakdownShape | lib/formulas.ts:75-98 | the breakdown has one entry per year, numbered 1..n; yearlyInvestment = 12·monthlyAmount; the first amount is the initial one and each later one is the previous times the step factor; each yearEndValue is the balance after that year, and the last is the total value |
| StepUpSip.CalculateStepUpSIP | lib/formulas.ts:63-99 | the nested loop produces exactly the year-by-year breakdown, the total value after all years, the total investment as the sum of yearly investments, and returns as value minus investment |
| StepUpSip.GrowMonthsExtendsSip | lib/formulas.ts:78-80 | k more months of the inner loop on an SIP balance is the SIP recurrence k months longer, for every k |
| StepUpSip.ZeroStepUpIsSipRecurrence | lib/formulas.ts:75-91 | with a 0% step-up, the simulated value after y years is the SIP recurrence over 12·y months |
| StepUpSip.ZeroStepUpMatchesSip | lib/formulas.ts:75-80 | with a 0% step-up, the Step-Up SIP total value equals calculateSIP's total value |
| Lumpsum.CalculateLumpsum | lib/formulas.ts:111-126 | value is P·(1+r/n)^(n·t); returns are value minus principal; 0% leaves the principal; non-negative inputs give at least simple interest; a positive rate on a positive principal for a year or more gives positive returns |
| Lumpsum.PeriodFactor | lib/formulas.ts:117-118 | the growth of one compounding period, 1 + r/n; Lumpsum.CompoundingBeatsSimple and Lumpsum.ZeroRateCompounding state its properties |
| Lumpsum.CompoundedValue | lib/formulas.ts:117-118 | P·(1+r/n)^(n·t); Lumpsum.CompoundingBeatsSimple, Lumpsum.ZeroRateCompounding and Lumpsum.CompoundedValueReinvested state its properties |
| Lumpsum.LumpsumDefaultFrequency | lib/formulas.ts:115-118 | a call without a frequency compounds monthly: P·(1 + r/12)^(12·t) |
| Lumpsum.CompoundingBeatsSimple | lib/formulas.ts:118 | (1+r/n)^(n·t) compounding of a non-negative principal at a non-negative rate yields at least P·(1+r·t) |
| Lumpsum.ZeroRateCompounding | lib/formulas.ts:118 | compounding at rate 0 leaves the principal unchanged |
| Lumpsum.CompoundedValueReinvested | lib/formulas.ts:118 | compounding for t1 years and then for t2 years is compounding for t1+t2 years |
| Lumpsum.LumpsumReinvestment | lib/formulas.ts:111-126 | reinvesting the lumpsum value after t1 years for t2 years gives the t1+t2-year value |
| FixedDeposit.CalculateFD | lib/formulas.ts:206-227 | interest is maturity minus principal; simple interest is P·rate·years; the compound branch agrees with calculateLumpsum at the same frequency; 0% gives back the principal |
| FixedDeposit.CompoundAtLeastSimple | lib/formulas.ts:216-220 | for non-negative principal and rate, the compound branch's maturity is at least the simple branch's |
| FixedDeposit.FdDefaultArguments | lib/formulas.ts:210-219 | a call without frequency or simple-interest flag compounds quarterly: P·(1 + r/4)^(4·t) |
| FixedDeposit.SimpleInterestAdditive | lib/formulas.ts:217 | simple interest for t1+t2 years is the sum of the interests for t1 and for t2 years |
| Swp.MaxMonths | lib/formulas.ts:155 | the horizon: 12·years for a nonzero horizon, 1200 months when it is absent or 0; Swp.SwpScheduleMonths and Swp.CalculateSWP state that no schedule runs past it |
| Swp.SwpMonth | lib/formulas.ts:163-179 | one month from the opening balance: interest, capped withdrawal, closing balance; Swp.SwpMonthFacts states its laws |
| Swp.SwpSchedule | lib/formulas.ts:161-182 | the months the loop emits, stopping at the horizon, at a non-positive opening balance, or after the month that exhausts the corpus; Swp.SwpScheduleMonths, Swp.SwpMonthLaws, Swp.SwpScheduleChained, Swp.SwpStopsOnlyWhenExhausted and Swp.SwpConservation state its properties |
| Swp.SwpMonthFacts | lib/formulas.ts:164-171 | one month: interest = opening·rate, withdrawal = min(planned, opening+interest), closing = opening+interest−withdrawal ≥ 0 |
| Swp.SwpMonthLaws | lib/formulas.ts:161-179 | every emitted month starts from a positive balance and obeys those laws; the withdrawal never exceeds opening plus interest, and is non-negative for non-negative rate and amount |
| Swp.SwpScheduleMonths | lib/formulas.ts:161-181 | months are numbered consecutively from the first, and none runs past the horizon |
| Swp.SwpScheduleChained | lib/formulas.ts:156-181 | the first month opens with the initial balance; each month opens with the previous closing balance; only the last month may close at or below zero |
| Swp.SwpStopsOnlyWhenExhausted | lib/formulas.ts:161-181 | the schedule is empty exactly when the corpus is non-positive or the horizon has passed; a schedule ending before the horizon ends with an exhausted corpus |
| Swp.SwpConservation | lib/formulas.ts:163-178 | the balance left is the opening corpus plus all interest minus all withdrawals |
| Swp.SwpNonDepleting | lib/formulas.ts:161-181 | a withdrawal below the month's interest is withdrawn in full every month and every month closes above its opening balance, so the plan runs to the horizon and ends above the starting corpus |
| Swp.SwpCorpusGrows | lib/formulas.ts:147-193 | for y ≥ 1 years, a positive corpus and a non-negative rate, with a horizon of y years and 12·withdrawal below a year's simple interest on the corpus, the plan lasts 12·y months and the final balance exceeds the initial investment |
| Swp.SwpZeroRateExhaustion | lib/formulas.ts:161-181 | at 0%, a corpus b with (k−1)·w < b ≤ k·w lasts exactly k months, given the horizon allows it, and ends at 0 |
| Swp.SwpDepletionExample | lib/formulas.ts:147-193 | 100000 drawn by 50000 a month at 0% is exhausted after exactly 2 months with final balance 0, under any horizon of at least 2 months |
| Swp.SwpOutcome | lib/formulas.ts:181-192 | the whole plan lasts at most the horizon; the balance left equals investment plus interest minus withdrawals; the clamped final balance is ≥ 0; a non-positive investment runs no month, withdraws nothing and leaves 0 |
| Swp.RunWithdrawals | lib/formulas.ts:156-181 | the loop emits exactly the schedule, counts its months, totals its withdrawals and ends at the schedule's closing balance |
| Swp.CalculateSWP | lib/formulas.ts:147-193 | the breakdown is the schedule to the horizon; monthsLasted is its length and ≤ maxMonths; totalWithdrawal is the sum of withdrawals; finalBalance = max(0, balance left) ≥ 0; conservation; a non-positive investment gives 0 months, 0 withdrawn, 0 final balance |
| RecurringDeposit.QuarterlyRate | lib/formulas.ts:246-248 | the quarterly rate is zero exactly when the annual rate is zero, and positive exactly when it is positive |
| RecurringDeposit.DepositValue | lib/formulas.ts:254-256 | one deposit grown for its remaining months, d·c^j with c the cube root of 1 + q; RecurringDeposit.RdWholeQuarters ties c^(3k) to (1+q)^k |
| RecurringDeposit.Maturity | lib/formulas.ts:251-258 | the sum over the deposits with 1..k months remaining; RecurringDeposit.MaturityWithoutGrowth, RecurringDeposit.MaturityExceedsDeposits and RecurringDeposit.MaturityClosedForm state its properties |
| RecurringDeposit.Deposited | lib/formulas.ts:260 | the deposits of n months, d·n; RecurringDeposit.RdInterestSign compares the maturity with it |
| RecurringDeposit.CalculateRD | lib/formulas.ts:241-268 | the loop sums every deposit grown for its remaining months; total deposit is deposit·months; interest is maturity minus deposits; 0% gives interest 0; a positive rate, deposit and tenure give positive interest |
| RecurringDeposit.RdWholeQuarters | lib/formulas.ts:254-256 | a deposit with 3k months remaining grows exactly as k whole quarters at the quarterly rate |
| RecurringDeposit.MaturityWithoutGrowth | lib/formulas.ts:253-260 | with no growth the maturity value is the sum of the deposits |
| RecurringDeposit.MaturityExceedsDeposits | lib/formulas.ts:253-260 | with growth above 1 and a positive deposit, over at least one month, the maturity value exceeds the deposits |
| RecurringDeposit.MaturityClosedForm | lib/formulas.ts:253-258 | the per-deposit sum satisfies the geometric closed form M·(c−1) = d·c·(c^k−1) |
| RecurringDeposit.RdInterestSign | lib/formulas.ts:253-265 | at 0% maturity equals deposits; at a positive rate, with a positive deposit and tenure, maturity exceeds deposits |
| Emi.Months | lib/formulas.ts:294 | the tenure in months, 12·years |
| Emi.EmiAmount | lib/formulas.ts:307-308 | P·r·(1+r)^n / ((1+r)^n − 1); Emi.EmiClearsLoan states it is the one level payment that clears the loan |
| Emi.TotalOf | lib/formulas.ts:310 | n instalments, e·n; Emi.EmiInterestTelescopes and Emi.CalculateEMI relate it to the schedule |
| Emi.AmortizeMonth | lib/formulas.ts:318-320 | one month: the balance less the instalment's principal part; Emi.BalanceTimesRate states the closed form it leads to |
| Emi.Balance | lib/formulas.ts:315-320 | the running balance after k instalments; Emi.BalanceTimesRate, Emi.EmiClearsLoan and Emi.EmiBalanceNonNegative state its properties |
| Emi.EntryForMonth | lib/formulas.ts:318-328 | the row the loop pushes for month k, balance clamped at zero; Emi.EmiScheduleShape states its fields |
| Emi.EmiSchedule | lib/formulas.ts:314-329 | the rows of the first n months; Emi.EmiScheduleShape, Emi.EmiPrincipalTelescopes, Emi.EmiInterestTelescopes and Emi.EmiScheduleRepaysLoan state its properties |
| Emi.EmiScheduleShape | lib/formulas.ts:317-329 | the schedule has one row per month, numbered 1..n; each row's emi is the instalment, principal + interest = instalment, and balance ≥ 0 |
| Emi.BalanceTimesRate | lib/formulas.ts:317-320 | the running balance times r equals P·r·(1+r)^k − e·((1+r)^k − 1) |
| Emi.EmiClearsLoan | lib/formulas.ts:307-308 | for a nonzero rate, n level payments e clear the loan if and only if e is the formula's EMI |
| Emi.EmiBalanceNonNegative | lib/formulas.ts:315-320 | for a positive rate and non-negative loan, the running balance under the EMI never goes negative within the tenure |
| Emi.EmiPrincipalTelescopes | lib/formulas.ts:317-329 | the principal column sums to the loan minus the balance left |
| Emi.EmiInterestTelescopes | lib/formulas.ts:310-329 | the interest column sums to the payments made minus the principal repaid |
| Emi.Amortize | lib/formulas.ts:314-329 | the loop builds exactly the amortization schedule of the loan under the instalment |
| Emi.EmiScheduleRepaysLoan | lib/formulas.ts:307-329 | under the formula's EMI the schedule has n rows with the properties above; principal paid sums to the loan; interest paid sums to totalPayment − principal; the last row's balance is exactly 0 |
| Emi.EmiScheduleBalancesExact | lib/formulas.ts:327 | for a positive rate and a non-negative loan, the clamp at zero never alters a row's balance |
| Emi.CalculateEMI | lib/formulas.ts:288-338 | totalPayment = emi·months; totalInterest = totalPayment − principal; at 0%, payment = principal, interest 0 and an empty schedule; otherwise emi is the formula's and the schedule is its amortization |
| NumberFilter.KeepNumericChars | lib/formulas.ts:352 | every character kept is a digit, '.' or '-', and the result is no longer than the input |
| NumberFilter.KeepNumericCharsAppend | lib/formulas.ts:352 | filtering a concatenation filters each part, so kept characters keep their order |
| NumberFilter.KeepNumericCharsIdentity | lib/formulas.ts:352 | the filter leaves a text unchanged if and only if all its characters are numeric |
| NumberFilter.KeepNumericCharsIdempotent | lib/formulas.ts:352 | filtering twice is filtering once |
| NumberFilter.KeepNumericCharsCounts | lib/formulas.ts:352 | each numeric character occurs as often in the result as in the input, and no other character occurs |

## Left out

- IEEE-754 floating point is not modelled: rounding, NaN and Infinity propagation, bit-identical results. Values are exact reals, so rounding drift in the source is exact zero here.
- Numeric examples with many powers, such as an SIP of 5000 a month at 12% over 10 years, are not evaluated. The one concrete example proved is the SWP depletion example.
- formatNumber (lib/formulas.ts:344-349) is left out. It is a wrapper over the host's locale number formatting.
- The `parseFloat(...) || 0` step of parseFormattedNumber is left out. It is a host float parser.
- Tenures, compounding frequencies and SWP horizons are whole numbers (`nat`), so fractional and negative values are left out. In the source a fractional tenure is not uniform: Step-Up SIP runs only whole years (2.5 years is two years, lib/formulas.ts:75), an SWP horizon of 0.5 years gives 6 months (lib/formulas.ts:155), a negative horizon gives an empty schedule, and SIP, EMI and RD turn 2.5 years into 30 months. Only a fractional number of compounding periods in Lumpsum and FD would need powers with real exponents.
- Lumpsum.CalculateLumpsum and FixedDeposit.CalculateFD require a frequency of at least 1 on the compound branch. At frequency 0 the source divides by zero, but the exponent 0·years is 0 and Math.pow(x, 0) is 1 even for Infinity or NaN, so it returns the principal with zero returns; the model does not cover that case.
- RecurringDeposit.CalculateRD: `(1 + q)^(m/3)` is modelled with the positive cube root `c` of `1 + q`, which the caller passes as a parameter. Its precondition `c·c·c = 1 + q` leaves out annual rates at or below −400%, which have no positive cube root. The method states the computation given the root; for realistic rates (such as 1% to 12% in steps of 0.1%) that root is irrational, so a caller over exact reals has to be handed it.
- Emi.CalculateEMI requires a tenure of at least one year, and a divisor `(1+r)^n − 1` that is not zero. Otherwise the source divides by zero and returns Infinity or NaN.
- The alias result fields of SWP (`totalWithdrawn`, `durationMonths`) are not repeated.
- The user interface, pages, theming, currency context, SEO data and ads are not part of this model.
