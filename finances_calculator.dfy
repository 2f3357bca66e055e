/**
 * The older finances calculator: the same payment formula, taking the loan as
 * arguments rather than from fields, and a walk to 80% loan-to-value with
 * neither extra principal nor an interest total. The source class keeps no
 * state, so its members are modelled as module-level members.
 */
module Finances {
  import opened Wrappers
  import opened Annuity

  /** The fixed monthly payment for the given rate, loan and term; it pays the loan off over the term. */
  function MonthlyMortgagePayment(interestRate: real, totalLoanAmount: real, termInMonths: nat): (p: real)
    requires FormulaDefined(interestRate, termInMonths)
    ensures BalanceAfter(Schedule(totalLoanAmount, interestRate, p, 0.0), termInMonths) == 0.0
  {
    Payment(interestRate, totalLoanAmount, termInMonths)
  }

  /** The schedule the walk runs: a missing payment is the formula's; there is never extra principal. */
  function LoanSchedule(interestRate: real, totalLoanAmount: real, termInMonths: nat,
                        monthlyMortgagePayment: Option<real>): Schedule
    requires monthlyMortgagePayment.Some? || FormulaDefined(interestRate, termInMonths)
  {
    var payment :=
      if monthlyMortgagePayment.Some? then monthlyMortgagePayment.value
      else MonthlyMortgagePayment(interestRate, totalLoanAmount, termInMonths);
    Schedule(totalLoanAmount, interestRate, payment, 0.0)
  }

  /** The years the walk reports: `k / 12` for the first crossing month k within the term, else 0. */
  function YearsUntil80LtvSpec(interestRate: real, totalLoanAmount: real, salePrice: real,
                               termInMonths: nat, monthlyMortgagePayment: Option<real>): real
    requires monthlyMortgagePayment.Some? || FormulaDefined(interestRate, termInMonths)
  {
    var s := LoanSchedule(interestRate, totalLoanAmount, termInMonths, monthlyMortgagePayment);
    match FirstCrossing(s, salePrice * 0.80, termInMonths, 0)
    case Some(k) => k as real / 12.0
    case None => 0.0
  }

  /** One iteration of the loop, written the way the loop computes it. */
  lemma MonthStep(s: Schedule, month: nat)
    requires s.extra == 0.0
    ensures BalanceAfter(s, month + 1)
         == BalanceAfter(s, month) - (s.payment - MonthInterest(BalanceAfter(s, month), s.annualRate))
  {
    assert BalanceAfter(s, month + 1) == NextBalance(s, BalanceAfter(s, month));
  }

  /**
   * Walks the schedule month by month, at most `termInMonths` months, and
   * returns the years until the balance first drops to or below 80% of the
   * sale price; 0.0 when it never does within the term.
   */
  method YearsUntil80Ltv(interestRate: real, totalLoanAmount: real, salePrice: real,
                         termInMonths: nat, monthlyMortgagePayment: Option<real>)
    returns (years: real)
    requires monthlyMortgagePayment.Some? || FormulaDefined(interestRate, termInMonths)
    ensures years == YearsUntil80LtvSpec(interestRate, totalLoanAmount, salePrice, termInMonths, monthlyMortgagePayment)
  {
    var payment: real;
    if monthlyMortgagePayment.None? {
      payment := MonthlyMortgagePayment(interestRate, totalLoanAmount, termInMonths);
    } else {
      payment := monthlyMortgagePayment.value;
    }

    var eightyPercentLtv := salePrice * 0.80;
    var principleLeft := totalLoanAmount;

    ghost var s := Schedule(totalLoanAmount, interestRate, payment, 0.0);
    assert s == LoanSchedule(interestRate, totalLoanAmount, termInMonths, monthlyMortgagePayment);
    for month := 0 to termInMonths
      invariant principleLeft == BalanceAfter(s, month)
      invariant FirstCrossing(s, eightyPercentLtv, termInMonths, month)
             == FirstCrossing(s, eightyPercentLtv, termInMonths, 0)
    {
      MonthStep(s, month);
      var currentMonthInterest := MonthInterest(principleLeft, interestRate);
      var principlePaid := payment - currentMonthInterest;

      principleLeft := principleLeft - principlePaid;

      if principleLeft <= eightyPercentLtv {
        return (month + 1) as real / 12.0;
      }
    }

    return 0.0;
  }

  /**
   * The walk reports `k / 12` for the first month k in 1 .. term whose
   * balance is at or below 80% of the sale price, and reports 0 exactly when
   * no month of the term gets there.
   */
  lemma YearsUntil80LtvIsFirstCrossing(interestRate: real, totalLoanAmount: real, salePrice: real,
                                       termInMonths: nat, monthlyMortgagePayment: Option<real>)
    requires monthlyMortgagePayment.Some? || FormulaDefined(interestRate, termInMonths)
    ensures var s := LoanSchedule(interestRate, totalLoanAmount, termInMonths, monthlyMortgagePayment);
      var threshold := salePrice * 0.80;
      var years := YearsUntil80LtvSpec(interestRate, totalLoanAmount, salePrice, termInMonths, monthlyMortgagePayment);
      (years == 0.0 <==> forall m :: 1 <= m <= termInMonths ==> BalanceAfter(s, m) > threshold) &&
      (years != 0.0 ==>
        exists k :: 1 <= k <= termInMonths && years == k as real / 12.0 && BalanceAfter(s, k) <= threshold &&
          forall m :: 1 <= m < k ==> BalanceAfter(s, m) > threshold)
  {
    var s := LoanSchedule(interestRate, totalLoanAmount, termInMonths, monthlyMortgagePayment);
    var threshold := salePrice * 0.80;
    FirstCrossingIsFirst(s, threshold, termInMonths, 0);
    match FirstCrossing(s, threshold, termInMonths, 0)
    case Some(k) =>
      assert k as real / 12.0 != 0.0;
      assert BalanceAfter(s, k) <= threshold;
    case None =>
  }
}
