/**
 * The mortgage calculator: a loan fixed at construction, the monthly payment
 * for it, the walk to a desired loan-to-value ratio with the interest paid on
 * the way, and the mortgage-insurance (PMI) total built on that walk.
 */
module Mortgage {
  import opened Wrappers
  import opened Annuity

  /** The exception raised for a desired ratio outside [0, 1]. */
  datatype LtvError = RatioOutsideUnitInterval

  /** How the month-by-month walk leaves its loop. */
  datatype Exit =
    | Crossed(month: nat)   // the balance after `month` is at or below the threshold
    | PaidOff(month: nat)   // the balance after `month` is at or below zero, but above the threshold
    | NotReached            // every iteration ran without either exit

  /** The exit the loop takes in months k+1 .. last, given it took none in months 1 .. k. */
  function ExitFrom(s: Schedule, threshold: real, last: nat, k: nat): Exit
    decreases last - k
  {
    if k >= last then NotReached
    else if BalanceAfter(s, k + 1) <= threshold then Crossed(k + 1)
    else if BalanceAfter(s, k + 1) <= 0.0 then PaidOff(k + 1)
    else ExitFrom(s, threshold, last, k + 1)
  }

  /**
   * The `(years, totalInterest)` pair the walk returns: the loop runs for
   * months 1 .. term+1; a pay-off records the whole term; running out of
   * months leaves the years at the `0.0` it started with.
   */
  function WalkResult(s: Schedule, threshold: real, termInMonths: nat): (real, real) {
    match ExitFrom(s, threshold, termInMonths + 1, 0)
    case Crossed(k) => (k as real / 12.0, InterestThrough(s, k))
    case PaidOff(k) => (termInMonths as real / 12.0, InterestThrough(s, k))
    case NotReached => (0.0, InterestThrough(s, termInMonths + 1))
  }

  /**
   * The walk reaches the payment formula only when the ratio passed both
   * guards and no payment was supplied; the formula must then be defined.
   */
  predicate PaymentAvailable(annualRate: real, termInMonths: nat, ratio: real, payment: Option<real>) {
    ratio == 1.0 || ratio > 1.0 || ratio < 0.0 || payment.Some? || FormulaDefined(annualRate, termInMonths)
  }

  /** The schedule the walk runs: a missing payment is the formula's, a missing extra is zero. */
  function ResolvedSchedule(loan: real, annualRate: real, termInMonths: nat,
                            extra: Option<real>, payment: Option<real>): Schedule
    requires payment.Some? || FormulaDefined(annualRate, termInMonths)
  {
    Schedule(loan, annualRate,
             if payment.Some? then payment.value else Payment(annualRate, loan, termInMonths),
             extra.GetOr(0.0))
  }

  /** The result of the walk to the desired ratio, for a calculator with the given fields. */
  function DesiredLtv(salePrice: real, loan: real, annualRate: real, termInMonths: nat,
                      ratio: real, extra: Option<real>, payment: Option<real>): Result<(real, real), LtvError>
    requires PaymentAvailable(annualRate, termInMonths, ratio, payment)
  {
    if ratio == 1.0 then Ok((0.0, 0.0))
    else if ratio > 1.0 || ratio < 0.0 then Err(RatioOutsideUnitInterval)
    else
      var s := ResolvedSchedule(loan, annualRate, termInMonths, extra, payment);
      var threshold := salePrice * ratio;
      if threshold >= loan then Ok((0.0, 0.0))
      else Ok(WalkResult(s, threshold, termInMonths))
  }

  /**
   * With a non-negative threshold the pay-off exit is never taken: a balance
   * at or below zero is already at or below the threshold, so the crossing
   * exit fires first and the walk stops exactly at the first crossing.
   */
  lemma {:induction false} PayoffBranchUnreachable(s: Schedule, threshold: real, last: nat, k: nat)
    requires threshold >= 0.0
    ensures ExitFrom(s, threshold, last, k)
         == match FirstCrossing(s, threshold, last, k)
            case Some(j) => Crossed(j)
            case None => NotReached
    decreases last - k
  {
    if k < last && BalanceAfter(s, k + 1) > threshold {
      PayoffBranchUnreachable(s, threshold, last, k + 1);
    }
  }

  /**
   * For a ratio in [0, 1) whose non-negative threshold is below the loan, the
   * walk reports `k / 12` years and the interest of months 1 .. k, where k is
   * the first month (at most term+1) whose balance is at or below the
   * threshold; when no such month exists it reports 0 years and the interest
   * of all term+1 months.
   */
  lemma CrossingMonth(salePrice: real, loan: real, annualRate: real, termInMonths: nat,
                      ratio: real, extra: Option<real>, payment: Option<real>)
    requires 0.0 <= ratio < 1.0 && 0.0 <= salePrice * ratio < loan
    requires payment.Some? || FormulaDefined(annualRate, termInMonths)
    ensures var s := ResolvedSchedule(loan, annualRate, termInMonths, extra, payment);
      var threshold := salePrice * ratio;
      var r := DesiredLtv(salePrice, loan, annualRate, termInMonths, ratio, extra, payment);
      r.Ok? &&
      match FirstCrossing(s, threshold, termInMonths + 1, 0)
      case Some(k) =>
        1 <= k <= termInMonths + 1 &&
        r.value == (k as real / 12.0, InterestThrough(s, k)) &&
        BalanceAfter(s, k) <= threshold &&
        (forall m :: 0 <= m < k ==> BalanceAfter(s, m) > threshold)
      case None =>
        r.value == (0.0, InterestThrough(s, termInMonths + 1)) &&
        (forall m :: 0 <= m <= termInMonths + 1 ==> BalanceAfter(s, m) > threshold)
  {
    var s := ResolvedSchedule(loan, annualRate, termInMonths, extra, payment);
    var threshold := salePrice * ratio;
    PayoffBranchUnreachable(s, threshold, termInMonths + 1, 0);
    FirstCrossingIsFirst(s, threshold, termInMonths + 1, 0);
  }

  /**
   * With a non-negative rate and sale price the total interest reported is
   * never negative.
   */
  lemma WalkInterestNonNegative(salePrice: real, loan: real, annualRate: real, termInMonths: nat,
                                ratio: real, extra: Option<real>, payment: Option<real>)
    requires annualRate >= 0.0 && salePrice >= 0.0
    requires PaymentAvailable(annualRate, termInMonths, ratio, payment)
    ensures var r := DesiredLtv(salePrice, loan, annualRate, termInMonths, ratio, extra, payment);
      r.Ok? ==> r.value.1 >= 0.0
  {
    if 0.0 <= ratio < 1.0 && salePrice * ratio < loan {
      var s := ResolvedSchedule(loan, annualRate, termInMonths, extra, payment);
      var threshold := salePrice * ratio;
      assert threshold >= 0.0;
      CrossingMonth(salePrice, loan, annualRate, termInMonths, ratio, extra, payment);
      match FirstCrossing(s, threshold, termInMonths + 1, 0)
      case Some(k) =>
        InterestNonDecreasing(s, threshold, k, k);
      case None =>
        InterestNonDecreasing(s, threshold, termInMonths + 1, termInMonths + 1);
    }
  }

  /**
   * Paying more extra principal never delays the walk: when the walk with
   * less extra reaches the target (reports a positive number of years), the
   * walk with more extra reaches it too, no later and with no more interest.
   * Without the premise the comparison fails on the sentinel: a walk that
   * never reaches reports 0 years, fewer than any walk that does.
   */
  lemma ExtraPrincipalNeverDelays(salePrice: real, loan: real, annualRate: real, termInMonths: nat,
                                  ratio: real, extra1: real, extra2: real, payment: Option<real>)
    requires 0.0 <= ratio < 1.0 && 0.0 <= salePrice * ratio < loan
    requires annualRate >= 0.0 && extra1 <= extra2
    requires payment.Some? || FormulaDefined(annualRate, termInMonths)
    requires DesiredLtv(salePrice, loan, annualRate, termInMonths, ratio, Some(extra1), payment).Ok?
    requires DesiredLtv(salePrice, loan, annualRate, termInMonths, ratio, Some(extra1), payment).value.0 > 0.0
    ensures var w1 := DesiredLtv(salePrice, loan, annualRate, termInMonths, ratio, Some(extra1), payment);
      var w2 := DesiredLtv(salePrice, loan, annualRate, termInMonths, ratio, Some(extra2), payment);
      w2.Ok? && 0.0 < w2.value.0 <= w1.value.0 && w2.value.1 <= w1.value.1
  {
    var s1 := ResolvedSchedule(loan, annualRate, termInMonths, Some(extra1), payment);
    var s2 := ResolvedSchedule(loan, annualRate, termInMonths, Some(extra2), payment);
    var threshold := salePrice * ratio;
    CrossingMonth(salePrice, loan, annualRate, termInMonths, ratio, Some(extra1), payment);
    CrossingMonth(salePrice, loan, annualRate, termInMonths, ratio, Some(extra2), payment);
    match FirstCrossing(s1, threshold, termInMonths + 1, 0)
    case None =>
    case Some(k1) =>
      MoreExtraCrossesNoLater(s1, s2, threshold, termInMonths + 1, k1);
      var k2 := FirstCrossing(s2, threshold, termInMonths + 1, 0).value;
      MoreExtraLessInterest(s1, s2, k2);
      InterestNonDecreasing(s1, threshold, k2, k1);
  }

  /**
   * Paying more extra principal never adds interest, whether or not either
   * walk reaches its target: the walk with more extra stops no later and
   * accrues no more interest in each month it runs.
   */
  lemma ExtraPrincipalNeverAddsInterest(salePrice: real, loan: real, annualRate: real, termInMonths: nat,
                                        ratio: real, extra1: real, extra2: real, payment: Option<real>)
    requires 0.0 <= ratio < 1.0 && 0.0 <= salePrice * ratio < loan
    requires annualRate >= 0.0 && extra1 <= extra2
    requires payment.Some? || FormulaDefined(annualRate, termInMonths)
    ensures var w1 := DesiredLtv(salePrice, loan, annualRate, termInMonths, ratio, Some(extra1), payment);
      var w2 := DesiredLtv(salePrice, loan, annualRate, termInMonths, ratio, Some(extra2), payment);
      w1.Ok? && w2.Ok? && w2.value.1 <= w1.value.1
  {
    var s1 := ResolvedSchedule(loan, annualRate, termInMonths, Some(extra1), payment);
    var s2 := ResolvedSchedule(loan, annualRate, termInMonths, Some(extra2), payment);
    var threshold := salePrice * ratio;
    var last := termInMonths + 1;
    CrossingMonth(salePrice, loan, annualRate, termInMonths, ratio, Some(extra1), payment);
    CrossingMonth(salePrice, loan, annualRate, termInMonths, ratio, Some(extra2), payment);
    match FirstCrossing(s1, threshold, last, 0)
    case Some(k1) =>
      MoreExtraCrossesNoLater(s1, s2, threshold, last, k1);
      var k2 := FirstCrossing(s2, threshold, last, 0).value;
      MoreExtraLessInterest(s1, s2, k2);
      InterestNonDecreasing(s1, threshold, k2, k1);
    case None =>
      match FirstCrossing(s2, threshold, last, 0)
      case Some(k2) =>
        MoreExtraLessInterest(s1, s2, k2);
        InterestNonDecreasing(s1, threshold, k2, last);
      case None =>
        MoreExtraLessInterest(s1, s2, last);
  }

  /** A loan charged no interest and paid nothing keeps its whole balance and accrues nothing. */
  lemma {:induction false} StandingLoan(s: Schedule, k: nat)
    requires s.annualRate == 0.0 && s.payment == 0.0 && s.extra == 0.0
    ensures BalanceAfter(s, k) == s.principal && InterestThrough(s, k) == 0.0
  {
    if k > 0 {
      StandingLoan(s, k - 1);
    }
  }

  /**
   * The "not reached within the term" result cannot be told apart from the
   * "already reached" one: a loan above the threshold that never amortizes
   * yields the same (0.0, 0.0) as a loan already at the threshold.
   */
  lemma NotReachedLooksAlreadyReached(salePrice: real, loan: real, termInMonths: nat, ratio: real)
    requires 0.0 <= ratio < 1.0 && 0.0 <= salePrice * ratio < loan
    ensures DesiredLtv(salePrice, loan, 0.0, termInMonths, ratio, None, Some(0.0)) == Ok((0.0, 0.0))
    ensures DesiredLtv(salePrice, salePrice * ratio, 0.0, termInMonths, ratio, None, Some(0.0)) == Ok((0.0, 0.0))
  {
    var s := ResolvedSchedule(loan, 0.0, termInMonths, None, Some(0.0));
    var threshold := salePrice * ratio;
    CrossingMonth(salePrice, loan, 0.0, termInMonths, ratio, None, Some(0.0));
    match FirstCrossing(s, threshold, termInMonths + 1, 0)
    case Some(k) =>
      StandingLoan(s, k);
      assert false;
    case None =>
      StandingLoan(s, termInMonths + 1);
  }

  /** Past both guards and below the loan, the result is the walk's. */
  lemma DesiredLtvWalks(salePrice: real, loan: real, annualRate: real, termInMonths: nat,
                        ratio: real, extra: Option<real>, payment: Option<real>)
    requires 0.0 <= ratio < 1.0 && salePrice * ratio < loan
    requires payment.Some? || FormulaDefined(annualRate, termInMonths)
    ensures DesiredLtv(salePrice, loan, annualRate, termInMonths, ratio, extra, payment)
         == Ok(WalkResult(ResolvedSchedule(loan, annualRate, termInMonths, extra, payment), salePrice * ratio, termInMonths))
  {
  }

  /** One iteration of the walk's loop, written the way the loop computes it. */
  lemma MonthStep(s: Schedule, month: nat)
    ensures BalanceAfter(s, month + 1)
         == BalanceAfter(s, month) - ((s.payment - (BalanceAfter(s, month) * s.annualRate) / 12.0) + s.extra)
    ensures InterestThrough(s, month + 1)
         == InterestThrough(s, month) + (BalanceAfter(s, month) * s.annualRate) / 12.0
  {
    var b := BalanceAfter(s, month);
    assert BalanceAfter(s, month + 1) == NextBalance(s, b);
    assert MonthInterest(b, s.annualRate) == (b * s.annualRate) / 12.0;
  }

  /** Where the walk stands after month `month + 1`, given it has not exited before. */
  lemma WalkStep(s: Schedule, threshold: real, termInMonths: nat, month: nat)
    requires month < termInMonths + 1
    requires ExitFrom(s, threshold, termInMonths + 1, month) == ExitFrom(s, threshold, termInMonths + 1, 0)
    ensures var b := BalanceAfter(s, month + 1);
      var total := InterestThrough(s, month + 1);
      var walk := WalkResult(s, threshold, termInMonths);
      (b <= threshold ==> walk == ((month + 1) as real / 12.0, total)) &&
      (threshold < b <= 0.0 ==> walk == (termInMonths as real / 12.0, total)) &&
      (threshold < b && 0.0 < b ==>
        ExitFrom(s, threshold, termInMonths + 1, month + 1) == ExitFrom(s, threshold, termInMonths + 1, 0) &&
        (month + 1 == termInMonths + 1 ==> walk == (0.0, total)))
  {
  }

  class MortgageCalculator {
    var salePrice: real
    var totalLoanAmount: real
    var interestRate: real
    var termInMonths: nat

    /** The loan is the sale price less the down payment; the down payment itself is not kept. */
    constructor (downPayment: real, salePrice: real, interestRate: real, termInMonths: nat)
      ensures this.salePrice == salePrice
      ensures totalLoanAmount == salePrice - downPayment
      ensures this.interestRate == interestRate && this.termInMonths == termInMonths
    {
      this.salePrice := salePrice;
      totalLoanAmount := salePrice - downPayment;
      this.interestRate := interestRate;
      this.termInMonths := termInMonths;
    }

    /** The fixed monthly payment that pays the loan off over the term. */
    function MonthlyMortgagePayment(): (p: real)
      reads this
      requires FormulaDefined(interestRate, termInMonths)
      ensures BalanceAfter(Schedule(totalLoanAmount, interestRate, p, 0.0), termInMonths) == 0.0
    {
      Payment(interestRate, totalLoanAmount, termInMonths)
    }

    /**
     * Walks the schedule month by month until the balance first drops to or
     * below `salePrice * desiredLtvRatioLeft`; returns the years taken and
     * the interest paid until then.
     */
    method YearsUntilDesiredLtvAndTotalInterest(desiredLtvRatioLeft: real,
                                                additionalPrinciplePayment: Option<real>,
                                                monthlyMortgagePayment: Option<real>)
      returns (result: Result<(real, real), LtvError>)
      requires PaymentAvailable(interestRate, termInMonths, desiredLtvRatioLeft, monthlyMortgagePayment)
      ensures desiredLtvRatioLeft == 1.0 ==> result == Ok((0.0, 0.0))
      ensures result.Err? <==> desiredLtvRatioLeft != 1.0 && (desiredLtvRatioLeft > 1.0 || desiredLtvRatioLeft < 0.0)
      ensures result == DesiredLtv(salePrice, totalLoanAmount, interestRate, termInMonths,
                                   desiredLtvRatioLeft, additionalPrinciplePayment, monthlyMortgagePayment)
    {
      if desiredLtvRatioLeft == 1.0 {
        return Ok((0.0, 0.0));
      }
      if desiredLtvRatioLeft > 1.0 || desiredLtvRatioLeft < 0.0 {
        return Err(RatioOutsideUnitInterval);
      }
      var payment: real;
      if monthlyMortgagePayment.None? {
        payment := MonthlyMortgagePayment();
      } else {
        payment := monthlyMortgagePayment.value;
      }
      var extra: real;
      if additionalPrinciplePayment.None? {
        extra := 0.0;
      } else {
        extra := additionalPrinciplePayment.value;
      }

      var percentLtv := salePrice * desiredLtvRatioLeft;
      var principleLeft := totalLoanAmount;
      var totalInterestPaid := 0.0;
      var yearsUntilLtv := 0.0;

      if percentLtv >= principleLeft {
        return Ok((0.0, 0.0));
      }

      ghost var s := Schedule(totalLoanAmount, interestRate, payment, extra);
      ghost var last := termInMonths + 1;
      assert s == ResolvedSchedule(totalLoanAmount, interestRate, termInMonths,
                                   additionalPrinciplePayment, monthlyMortgagePayment);
      DesiredLtvWalks(salePrice, totalLoanAmount, interestRate, termInMonths,
                      desiredLtvRatioLeft, additionalPrinciplePayment, monthlyMortgagePayment);
      for month := 0 to termInMonths + 1
        invariant principleLeft == BalanceAfter(s, month)
        invariant totalInterestPaid == InterestThrough(s, month)
        invariant yearsUntilLtv == 0.0
        invariant ExitFrom(s, percentLtv, last, month) == ExitFrom(s, percentLtv, last, 0)
        invariant month == last ==> (yearsUntilLtv, totalInterestPaid) == WalkResult(s, percentLtv, termInMonths)
      {
        MonthStep(s, month);
        WalkStep(s, percentLtv, termInMonths, month);
        var currentMonthInterest := MonthInterest(principleLeft, interestRate);
        totalInterestPaid := totalInterestPaid + currentMonthInterest;
        var principlePaid := payment - currentMonthInterest;
        principleLeft := principleLeft - (principlePaid + extra);

        if principleLeft <= percentLtv {
          yearsUntilLtv := (month + 1) as real / 12.0;
          assert (yearsUntilLtv, totalInterestPaid) == WalkResult(s, percentLtv, termInMonths);
          break;
        }

        if principleLeft <= 0.0 {
          if yearsUntilLtv == 0.0 {
            yearsUntilLtv := termInMonths as real / 12.0;
          }
          assert (yearsUntilLtv, totalInterestPaid) == WalkResult(s, percentLtv, termInMonths);
          break;
        }
      }

      assert (yearsUntilLtv, totalInterestPaid) == WalkResult(s, percentLtv, termInMonths);
      return Ok((yearsUntilLtv, totalInterestPaid));
    }

    /**
     * The PMI paid before reaching 80% loan-to-value: the annual premium
     * (loan times rate) times the years, which default to the walk to a 0.80
     * ratio with no extra principal and the formula's payment.
     */
    method TotalPmiPaid(pmi: real, yearsUntil80PercentLtv: Option<real>) returns (total: real)
      requires yearsUntil80PercentLtv.Some? || FormulaDefined(interestRate, termInMonths)
      ensures yearsUntil80PercentLtv.Some? ==> total == totalLoanAmount * pmi * yearsUntil80PercentLtv.value
      ensures yearsUntil80PercentLtv.None? ==>
        var walk := DesiredLtv(salePrice, totalLoanAmount, interestRate, termInMonths, 0.80, None, None);
        walk.Ok? && total == totalLoanAmount * pmi * walk.value.0
    {
      var years: real;
      if yearsUntil80PercentLtv.None? {
        var walk := YearsUntilDesiredLtvAndTotalInterest(0.80, None, None);
        years := walk.value.0;
      } else {
        years := yearsUntil80PercentLtv.value;
      }
      var pmiAnnualPremium := totalLoanAmount * pmi;
      total := pmiAnnualPremium * years;
    }
  }
}
