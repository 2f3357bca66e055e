/**
 * How the two walks relate: the finances calculator's 80% walk and the
 * mortgage calculator's walk to a 0.80 ratio with no extra principal.
 */
module CalculatorAgreement {
  import opened Wrappers
  import opened Annuity
  import Mortgage
  import Finances

  /** Both calculators resolve a missing payment to the same formula and use no extra principal. */
  lemma SameSchedule(interestRate: real, totalLoanAmount: real, termInMonths: nat, payment: Option<real>)
    requires payment.Some? || FormulaDefined(interestRate, termInMonths)
    ensures Mortgage.ResolvedSchedule(totalLoanAmount, interestRate, termInMonths, None, payment)
         == Finances.LoanSchedule(interestRate, totalLoanAmount, termInMonths, payment)
  {
  }

  /**
   * When the loan starts above 80% of a non-negative sale price and its
   * balance reaches that threshold within the term, both walks report the
   * same number of years.
   */
  lemma AgreeWhenCrossingWithinTerm(interestRate: real, totalLoanAmount: real, salePrice: real,
                                    termInMonths: nat, payment: Option<real>)
    requires payment.Some? || FormulaDefined(interestRate, termInMonths)
    requires 0.0 <= salePrice && salePrice * 0.80 < totalLoanAmount
    requires exists m :: (1 <= m <= termInMonths &&
      BalanceAfter(Finances.LoanSchedule(interestRate, totalLoanAmount, termInMonths, payment), m) <= salePrice * 0.80)
    ensures var walk := Mortgage.DesiredLtv(salePrice, totalLoanAmount, interestRate, termInMonths, 0.80, None, payment);
      walk.Ok? &&
      walk.value.0 == Finances.YearsUntil80LtvSpec(interestRate, totalLoanAmount, salePrice, termInMonths, payment)
  {
    var s := Finances.LoanSchedule(interestRate, totalLoanAmount, termInMonths, payment);
    var threshold := salePrice * 0.80;
    var m :| 1 <= m <= termInMonths && BalanceAfter(s, m) <= threshold;
    FirstCrossingIsFirst(s, threshold, termInMonths, 0);
    var j :| FirstCrossing(s, threshold, termInMonths, 0) == Some(j);
    FirstCrossingBeyondHorizon(s, threshold, termInMonths, termInMonths + 1, 0, j);
    SameSchedule(interestRate, totalLoanAmount, termInMonths, payment);
    Mortgage.PayoffBranchUnreachable(s, threshold, termInMonths + 1, 0);
    Mortgage.DesiredLtvWalks(salePrice, totalLoanAmount, interestRate, termInMonths, 0.80, None, payment);
  }

  /**
   * The finances walk has no "already reached" guard: for a loan already at
   * or below 80% of the sale price, whose payment covers the first month's
   * interest, it reports one month (1/12 year) where the mortgage walk
   * reports (0.0, 0.0).
   */
  lemma DivergeWhenAlreadyBelow80(interestRate: real, totalLoanAmount: real, salePrice: real,
                                  termInMonths: nat, payment: Option<real>)
    requires payment.Some? || FormulaDefined(interestRate, termInMonths)
    requires termInMonths >= 1 && totalLoanAmount <= salePrice * 0.80
    requires Finances.LoanSchedule(interestRate, totalLoanAmount, termInMonths, payment).payment
             > MonthInterest(totalLoanAmount, interestRate)
    ensures Mortgage.DesiredLtv(salePrice, totalLoanAmount, interestRate, termInMonths, 0.80, None, payment)
         == Ok((0.0, 0.0))
    ensures Finances.YearsUntil80LtvSpec(interestRate, totalLoanAmount, salePrice, termInMonths, payment)
         == 1.0 / 12.0
  {
    var s := Finances.LoanSchedule(interestRate, totalLoanAmount, termInMonths, payment);
    assert BalanceAfter(s, 1) < totalLoanAmount by {
      assert BalanceAfter(s, 1) == NextBalance(s, BalanceAfter(s, 0));
    }
    assert FirstCrossing(s, salePrice * 0.80, termInMonths, 0) == Some(1);
  }

  /**
   * Conversely, when the mortgage walk at ratio 0.80 with no extra principal
   * reports a positive time within the term, the finances walk reports the
   * same years.
   */
  lemma AgreeWhenMortgageWalkWithinTerm(interestRate: real, totalLoanAmount: real, salePrice: real,
                                        termInMonths: nat, payment: Option<real>)
    requires payment.Some? || FormulaDefined(interestRate, termInMonths)
    requires 0.0 <= salePrice && salePrice * 0.80 < totalLoanAmount
    requires Mortgage.DesiredLtv(salePrice, totalLoanAmount, interestRate, termInMonths, 0.80, None, payment).Ok?
    requires var years := Mortgage.DesiredLtv(salePrice, totalLoanAmount, interestRate, termInMonths, 0.80, None, payment).value.0;
      0.0 < years <= termInMonths as real / 12.0
    ensures Finances.YearsUntil80LtvSpec(interestRate, totalLoanAmount, salePrice, termInMonths, payment)
         == Mortgage.DesiredLtv(salePrice, totalLoanAmount, interestRate, termInMonths, 0.80, None, payment).value.0
  {
    var s := Finances.LoanSchedule(interestRate, totalLoanAmount, termInMonths, payment);
    var threshold := salePrice * 0.80;
    SameSchedule(interestRate, totalLoanAmount, termInMonths, payment);
    Mortgage.CrossingMonth(salePrice, totalLoanAmount, interestRate, termInMonths, 0.80, None, payment);
    match FirstCrossing(s, threshold, termInMonths + 1, 0)
    case Some(k) =>
      assert k as real / 12.0 <= termInMonths as real / 12.0;
      FirstCrossingWithinHorizon(s, threshold, termInMonths + 1, termInMonths, 0, k);
    case None =>
  }

  /**
   * With the formula's payment (positive rate, loan and term), a loan already
   * at or below 80% of the sale price makes the walks disagree: `(0.0, 0.0)`
   * from the mortgage walk, 1/12 year from the finances walk.
   */
  lemma DivergeWithFormulaPayment(interestRate: real, totalLoanAmount: real, salePrice: real, termInMonths: nat)
    requires interestRate > 0.0 && totalLoanAmount > 0.0 && termInMonths >= 1
    requires totalLoanAmount <= salePrice * 0.80
    ensures FormulaDefined(interestRate, termInMonths)
    ensures Mortgage.DesiredLtv(salePrice, totalLoanAmount, interestRate, termInMonths, 0.80, None, None)
         == Ok((0.0, 0.0))
    ensures Finances.YearsUntil80LtvSpec(interestRate, totalLoanAmount, salePrice, termInMonths, None)
         == 1.0 / 12.0
  {
    PaymentExceedsFirstInterest(interestRate, totalLoanAmount, termInMonths);
    DivergeWhenAlreadyBelow80(interestRate, totalLoanAmount, salePrice, termInMonths, None);
  }
}
