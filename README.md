# PyMoritizer amortization engine in Dafny

PyMoritizer is a command-line mortgage calculator. This project models its
amortization engine:

- the fixed monthly payment of a fully amortizing loan, `(L * R) / (1 - (1 + R)^-n)`
  with `R = rate / 12`;
- the month-by-month walk of the balance down to a desired loan-to-value
  threshold (`salePrice * ratio`), which reports the years taken and the
  interest paid on the way;
- the total mortgage insurance (PMI) paid before 80% loan-to-value;
- the older finances calculator's walk to 80% loan-to-value;
- the driver's conversion of the term argument (`"7y"`, `"7"`, `"7m"`) into months.

Files:

- `wrappers.dfy`: `Option` and `Result`.
- `annuity.dfy`: the arithmetic both calculators share. It holds the payment
  formula and the walk as recursive functions of the month index:
  `BalanceAfter`, `InterestThrough` and the first-crossing search
  `FirstCrossing`. It also holds the closed form of the walk and the
  extra-principal monotonicity lemmas.
- `mortgage_calculator.dfy`: the class `MortgageCalculator`, with the same
  fields and methods as the source class. Its walk is a `for` loop proved
  equal to the function `DesiredLtv`. The lemmas about the walk are next to it.
- `finances_calculator.dfy`: the finances calculator. The source class has no
  fields, so its members are module-level members here. Its loop is proved
  equal to `YearsUntil80LtvSpec`.
- `calculator_agreement.dfy`: where the two 80% walks agree and where they
  differ.
- `duration.dfy`: the term-argument conversion as written, and as its help
  text describes it.

Floating-point numbers are modelled as `real`, computed exactly. The source's
`pow(1 + R, -n)` is `1 / Pow(1 + R, n)`. An exception the source raises on
purpose becomes an `Err` result. A division by zero the source does not guard
against becomes a precondition (`FormulaDefined`).

Where the documented behaviour and the code differ, the model follows the code:

- The mortgage walk runs `termInMonths + 1` iterations (`range(termInMonths + 1)`),
  not `termInMonths`.
- The walk leaves the loop at the first month whose balance is at or below
  the threshold. It does not go on to the pay-off check.
- The pay-off exit (`principleLeft <= 0`) can only fire for a negative
  threshold. For any ratio in [0, 1] with a non-negative sale price it is dead
  code (`PayoffBranchUnreachable`).
- A zero rate has no linear-amortization fallback. The formula divides by
  zero, so the model requires `FormulaDefined`.
- "Not reached within the term" reports 0 years. This is kept as written; it
  cannot be told apart from "already reached" (`NotReachedLooksAlreadyReached`).
- The finances walk has no "already reached" guard. Take a loan already at
  or below 80%, with a term of at least one month and a payment above the
  first month's interest. It reports 1/12 year where the mortgage walk reports
  0 (`DivergeWhenAlreadyBelow80`). With a term of 0 the finances loop does not
  run and reports 0. With a payment that does not cover the first month's
  interest, the balance can grow and the walk may never cross.

## Model

| member | source | states |
|---|---|---|
| `Annuity.Payment` | MortgageCalculator.py:32-34 | Wherever the formula is defined, walking the schedule with the formula's payment and no extra principal leaves exactly 0 owed after `termInMonths` months. |
| `Annuity.FormulaNeedsNonZeroRate` | MortgageCalculator.py:32-34 | The formula is defined only for a non-zero rate: at rate 0 the denominator `1 - 1^-n` is 0. |
| `Annuity.FormulaDefinedForPositiveRate` | MortgageCalculator.py:32-34 | Every positive rate with a positive term is inside the formula's domain. |
| `Annuity.PaymentExceedsFirstInterest` | MortgageCalculator.py:32-34 | With a positive rate, principal and term, the payment is more than the first month's interest, so the balance falls from the first month. |
| `Annuity.ClosedFormBalance` | MortgageCalculator.py:78-82 | After `k` months of the walk, `R * B_k == R * L * G^k - (payment + extra) * (G^k - 1)`, where `G = 1 + R`. |
| `Annuity.AnnuityPaymentAmortizes` | MortgageCalculator.py:34 | Any payment that satisfies the annuity equation `p * (1 - G^-n) == L * R` brings the balance to exactly 0 after `n` months. |
| `Annuity.FirstCrossingIsFirst` | MortgageCalculator.py:84-89 | The search returns the first month whose balance is at or below the threshold, with every earlier month above it. When it finds none, every month in range is above the threshold. |
| `Annuity.FirstCrossingWithinHorizon` | FinancesCalculator.py:50-57 | A crossing found within the longer horizon is found at the same month by a search over a shorter horizon that still contains it. |
| `Annuity.FirstCrossingBeyondHorizon` | MortgageCalculator.py:78-89 | A crossing found within `term` months is found at the same month by the `term + 1` month search. |
| `Annuity.InterestNonDecreasing` | MortgageCalculator.py:79-80 | With a non-negative rate, while every balance stays above a non-negative threshold, the running interest total is non-negative and never decreases. |
| `Annuity.MoreExtraLowerBalance` | MortgageCalculator.py:82 | Paying more extra principal each month never leaves a larger balance after any month, for a rate of at least -12 (so that `1 + R >= 0`). |
| `Annuity.MoreExtraLessInterest` | MortgageCalculator.py:79-82 | With a non-negative rate, more extra principal never accrues more interest over the same months. |
| `Annuity.MoreExtraCrossesNoLater` | MortgageCalculator.py:82-89 | More extra principal crosses any threshold too, in the same month or earlier. |
| `Mortgage.MortgageCalculator.constructor` | MortgageCalculator.py:11-22 | Keeps the sale price, rate and term. The loan is the sale price less the down payment, and the down payment itself is not kept. |
| `Mortgage.MortgageCalculator.MonthlyMortgagePayment` | MortgageCalculator.py:29-34 | The payment for the calculator's own loan, rate and term pays that loan off to exactly 0 over the term. |
| `Mortgage.MortgageCalculator.YearsUntilDesiredLtvAndTotalInterest` | MortgageCalculator.py:46-99 | A ratio of exactly 1 gives `(0, 0)`. It is an error exactly when the ratio is not 1 and lies outside [0, 1]. Otherwise the loop's result equals `DesiredLtv`: it reports `(0, 0)` when the threshold is at or above the loan, and otherwise the walk's exit. |
| `Mortgage.MortgageCalculator.TotalPmiPaid` | MortgageCalculator.py:106-118 | Returns the annual premium (loan times PMI rate) times the years given. With no years given, it uses the years of the 0.80-ratio walk, which never fails. |
| `Mortgage.PayoffBranchUnreachable` | MortgageCalculator.py:84-97 | With a non-negative threshold, the pay-off exit is never taken. The walk exits exactly at the first crossing, or runs out of months. |
| `Mortgage.CrossingMonth` | MortgageCalculator.py:68-99 | For a ratio in [0, 1) with a non-negative threshold below the loan: if the first crossing is month `k`, the walk reports `(k / 12, interest of months 1..k)`, where `1 <= k <= term + 1`. If no month of the `term + 1` crosses, it reports `(0, interest of all term + 1 months)`. |
| `Mortgage.WalkInterestNonNegative` | MortgageCalculator.py:71-82 | With a non-negative rate and sale price, the interest total the walk reports is never negative. |
| `Mortgage.ExtraPrincipalNeverDelays` | MortgageCalculator.py:65-89 | If the walk with less extra principal reaches the target, the walk with more extra reaches it too. It gets there no later and accrues no more interest. |
| `Mortgage.ExtraPrincipalNeverAddsInterest` | MortgageCalculator.py:65-89 | Whether or not either walk reaches its target, the walk with more extra principal reports no more interest than the walk with less. |
| `Mortgage.StandingLoan` | MortgageCalculator.py:78-82 | A loan with no rate, no payment and no extra principal keeps its whole balance and accrues no interest. |
| `Mortgage.NotReachedLooksAlreadyReached` | MortgageCalculator.py:72-99 | Both results are `(0, 0)`: a loan above the threshold that never amortizes, and a loan already at the threshold. |
| `Finances.MonthlyMortgagePayment` | FinancesCalculator.py:12-19 | The payment for the given rate, loan and term pays the loan off to exactly 0 over the term. |
| `Finances.YearsUntil80Ltv` | FinancesCalculator.py:31-60 | The loop's result equals `YearsUntil80LtvSpec`: `k / 12` for the first crossing month `k` within the term, else 0. |
| `Finances.YearsUntil80LtvIsFirstCrossing` | FinancesCalculator.py:46-60 | The result is 0 exactly when no month `1..term` is at or below 80% of the sale price. Otherwise it is `k / 12` for the first month `k` that is. |
| `CalculatorAgreement.AgreeWhenCrossingWithinTerm` | FinancesCalculator.py:46-57 | Take a loan above 80% of a non-negative sale price whose balance reaches that threshold within the term. The finances walk and the mortgage walk at ratio 0.80 then report the same years. |
| `CalculatorAgreement.DivergeWhenAlreadyBelow80` | FinancesCalculator.py:46-57 | Take a loan already at or below 80% whose payment covers the first month's interest. The mortgage walk reports `(0, 0)` but the finances walk reports 1/12 year. |
| `CalculatorAgreement.AgreeWhenMortgageWalkWithinTerm` | FinancesCalculator.py:46-60 | Conversely, when the mortgage walk at ratio 0.80 reports a positive time within the term, the finances walk reports the same years. |
| `CalculatorAgreement.DivergeWithFormulaPayment` | FinancesCalculator.py:39-57 | With no payment supplied, a positive rate, loan and term, and a loan at or below 80%, the formula is defined and the walks disagree: `(0, 0)` against 1/12 year. |
| `Duration.DecimalRoundTrip` | amoritizer.py:25 | `int(str(n)) == n` for every natural `n`. |
| `Duration.ParseTimeDuration` | amoritizer.py:22-29 | Text is left unconverted exactly when it ends in `m`. Any other text becomes a whole number of years, counted in months (a multiple of 12). |
| `Duration.DigitEndingReadWhole` | amoritizer.py:25-29 | Digits with no unit are read whole, as years: `12 * value` months. |
| `Duration.OneUnitCharacterDropped` | amoritizer.py:25-29 | A non-digit last character other than `m` is dropped, just that one character. The remaining digits are years. |
| `Duration.YearsRoundTrip` | amoritizer.py:22-29 | `str(n) + "y"` and `str(n)` both convert to `12 * n` months. |
| `Duration.MonthSuffixLeftUnconverted` | amoritizer.py:22 | As written, `str(n) + "m"` is never converted: it stays as the text. |
| `Duration.ParseTimeDurationIntended` | UserInput.py:70 | As the help text describes it, `m` counts months and `y` or no unit counts years. For text not ending in `m` it agrees with the code as written. |
| `Duration.IntendedRoundTrip` | UserInput.py:70 | `str(n) + "m"` is `n` months. `str(n) + "y"` and `str(n)` are `12 * n` months. |

## Left out

- IEEE-754 double arithmetic (rounding, overflow to infinity, NaN): the model computes exactly over `real`. `Payment` amortizes to exactly 0 here; in floating point it only comes close.
- The unguarded division by zero in the payment formula (zero rate, zero term, rate -12, or any rate with `(1 + R)^n == 1`, such as rate -24 with an even term): the source raises `ZeroDivisionError`, and the model makes these inputs a precondition (`FormulaDefined`) rather than a result.
- Negative terms: `termInMonths` is a `nat`.
- Mortgage.ExtraPrincipalNeverDelays: the years half needs the premise that the walk with less extra reaches its target. When it does not, it reports the 0-year sentinel, and the years are then not monotone in the extra principal. The interest half holds without that premise (`ExtraPrincipalNeverAddsInterest`).
- Mortgage.MortgageCalculator.TotalPmiPaid: the tuple element the source misnames `interestRate` is discarded, as in the source. A Python `None` for `pmi` is not modelled.
- Duration.ParseTimeDuration: only text whose last character is ASCII is modelled (`Convertible`). On ASCII, `str.isnumeric()` holds exactly for `0`..`9`. A last character that Python counts as numeric but that is not an ASCII digit (`"7٣"`, `"7²"`) is kept by the source and passed to `int()`: `int("7٣")` is 73 and `int("7²")` raises `ValueError`. The model does not cover these inputs.
- Duration.OneUnitCharacterDropped: stated for an ASCII unit character only, for the same reason.
- Duration.ParseTimeDuration: Python's `int()` also accepts surrounding whitespace, signs, underscores and non-ASCII digits in the number part. The model requires the number part to be ASCII digits. Empty text and malformed numbers raise `IndexError` or `ValueError` in the source; `Convertible` is a precondition instead.
- What happens to the unconverted `"7m"` text downstream (the driver hands it to the payment formula, where it fails) is not modelled.
- `MortgageCalculator.CommonTermPeriods` (360 and 180 months): named constants that the engine never uses.
- Output formatting (`Output.py`), argument parsing (`UserInput.py`) and the rest of the driver (`amoritizer.py`) are terminal I/O and are not part of this model.

## Findings

| source | as written | input that shows it | evidently intended | confidence | as-written member | corrected member |
|---|---|---|---|---|---|---|
| amoritizer.py:22 | Text ending in `m` skips the conversion and is left as a string. Only years are ever converted to months. | `"7m"` stays the string `"7m"` instead of becoming 7 months | `"7m"` is 7 months, as the help text at UserInput.py:70 says | medium, not executed | `Duration.MonthSuffixLeftUnconverted` | `Duration.ParseTimeDurationIntended` |
