/**
 * The arithmetic shared by both calculators: the fixed-payment annuity formula
 * and the month-by-month balance walk that both amortization loops perform.
 * Floating point is modelled by `real`; the walks are specified here as
 * recursive functions over the 1-based month index.
 */
module Annuity {
  import opened Wrappers

  /** `x` to the `n`-th power; the source's `pow(x, float(n))` for whole `n`. */
  function Pow(x: real, n: nat): real {
    if n == 0 then 1.0 else x * Pow(x, n - 1)
  }

  lemma {:induction false} PowNonZero(x: real, n: nat)
    requires x != 0.0
    ensures Pow(x, n) != 0.0
  {
    if n > 0 {
      PowNonZero(x, n - 1);
    }
  }

  lemma {:induction false} PowOfOne(n: nat)
    ensures Pow(1.0, n) == 1.0
  {
    if n > 0 {
      PowOfOne(n - 1);
    }
  }

  lemma {:induction false} PowAboveOne(x: real, n: nat)
    requires x > 1.0 && n > 0
    ensures Pow(x, n) > 1.0
  {
    if n > 1 {
      PowAboveOne(x, n - 1);
      assert x * Pow(x, n - 1) > 1.0 * Pow(x, n - 1);
    }
  }

  /**
   * The payment formula `(L * R) / (1 - (1 + R)^-n)` with `R = rate / 12`
   * can be evaluated without a division by zero: `1 + R` is not zero (so the
   * negative power exists) and `(1 + R)^n` is not one (so the denominator is
   * not zero). A zero rate violates the second condition, as does a zero term.
   */
  predicate FormulaDefined(annualRate: real, termInMonths: nat) {
    1.0 + annualRate / 12.0 != 0.0 && Pow(1.0 + annualRate / 12.0, termInMonths) != 1.0
  }

  lemma FormulaDefinedForPositiveRate(annualRate: real, termInMonths: nat)
    requires annualRate > 0.0 && termInMonths > 0
    ensures FormulaDefined(annualRate, termInMonths)
  {
    PowAboveOne(1.0 + annualRate / 12.0, termInMonths);
  }

  /**
   * The fixed monthly payment of a fully amortizing loan. Paying it every
   * month with no extra principal leaves exactly nothing owed after the last
   * scheduled month.
   */
  function Payment(annualRate: real, principal: real, termInMonths: nat): (p: real)
    requires FormulaDefined(annualRate, termInMonths)
    ensures BalanceAfter(Schedule(principal, annualRate, p, 0.0), termInMonths) == 0.0
  {
    var x := Pow(1.0 + annualRate / 12.0, termInMonths);
    PowNonZero(1.0 + annualRate / 12.0, termInMonths);
    DenominatorNonZero(x);
    FormulaNeedsNonZeroRate(annualRate, termInMonths);
    var pay := (principal * (annualRate / 12.0)) / (1.0 - 1.0 / x);
    QuotientTimesDivisor(principal * (annualRate / 12.0), 1.0 - 1.0 / x);
    AnnuityPaymentAmortizes(Schedule(principal, annualRate, pay, 0.0), termInMonths, x);
    pay
  }

  /** With a positive rate the payment covers more than the first month's interest. */
  lemma PaymentExceedsFirstInterest(annualRate: real, principal: real, termInMonths: nat)
    requires annualRate > 0.0 && principal > 0.0 && termInMonths > 0
    ensures FormulaDefined(annualRate, termInMonths)
    ensures Payment(annualRate, principal, termInMonths) > MonthInterest(principal, annualRate)
  {
    var r := annualRate / 12.0;
    var x := Pow(1.0 + r, termInMonths);
    PowAboveOne(1.0 + r, termInMonths);
    FormulaDefinedForPositiveRate(annualRate, termInMonths);
    var d := 1.0 - 1.0 / x;
    assert 0.0 < 1.0 / x < 1.0;
    assert 0.0 < d < 1.0;
    var p := Payment(annualRate, principal, termInMonths);
    assert p == (principal * r) / d;
    assert p * d == principal * r;
    assert principal * r > 0.0;
    assert p > 0.0;
    assert p * d < p;
    assert MonthInterest(principal, annualRate) == principal * r;
  }

  /** What one amortization loop works with; `extra` is additional principal each month. */
  datatype Schedule = Schedule(principal: real, annualRate: real, payment: real, extra: real)

  /** The interest charged for a month on the balance it starts with. */
  function MonthInterest(balance: real, annualRate: real): real {
    (balance * annualRate) / 12.0
  }

  /** The balance after one month: the payment net of interest, plus any extra, comes off. */
  function NextBalance(s: Schedule, balance: real): real {
    balance - ((s.payment - MonthInterest(balance, s.annualRate)) + s.extra)
  }

  /** The balance after `k` months (after month `k`, 1-based); `k == 0` is origination. */
  function BalanceAfter(s: Schedule, k: nat): real {
    if k == 0 then s.principal else NextBalance(s, BalanceAfter(s, k - 1))
  }

  /** The interest charged over months 1 .. k. */
  function InterestThrough(s: Schedule, k: nat): real {
    if k == 0 then 0.0
    else InterestThrough(s, k - 1) + MonthInterest(BalanceAfter(s, k - 1), s.annualRate)
  }

  /** The first month in k+1 .. last whose closing balance is at or below `threshold`. */
  function FirstCrossing(s: Schedule, threshold: real, last: nat, k: nat): Option<nat>
    decreases last - k
  {
    if k >= last then None
    else if BalanceAfter(s, k + 1) <= threshold then Some(k + 1)
    else FirstCrossing(s, threshold, last, k + 1)
  }

  /** FirstCrossing finds the first month at or below the threshold, or reports that there is none. */
  lemma {:induction false} FirstCrossingIsFirst(s: Schedule, threshold: real, last: nat, k: nat)
    requires k <= last
    ensures match FirstCrossing(s, threshold, last, k)
      case Some(j) =>
        k < j <= last && BalanceAfter(s, j) <= threshold &&
        forall m :: k < m < j ==> BalanceAfter(s, m) > threshold
      case None =>
        forall m :: k < m <= last ==> BalanceAfter(s, m) > threshold
    decreases last - k
  {
    if k < last && BalanceAfter(s, k + 1) > threshold {
      FirstCrossingIsFirst(s, threshold, last, k + 1);
    }
  }

  /** Searching a shorter horizon that still contains the crossing finds the same month. */
  lemma {:induction false} FirstCrossingWithinHorizon(s: Schedule, threshold: real, last: nat, shorter: nat, k: nat, j: nat)
    requires k <= shorter <= last
    requires FirstCrossing(s, threshold, last, k) == Some(j) && j <= shorter
    ensures FirstCrossing(s, threshold, shorter, k) == Some(j)
    decreases last - k
  {
    if BalanceAfter(s, k + 1) > threshold {
      FirstCrossingIsFirst(s, threshold, last, k + 1);
      FirstCrossingWithinHorizon(s, threshold, last, shorter, k + 1, j);
    }
  }

  /** Searching a longer horizon finds a crossing the shorter search found. */
  lemma {:induction false} FirstCrossingBeyondHorizon(s: Schedule, threshold: real, shorter: nat, longer: nat, k: nat, j: nat)
    requires shorter <= longer
    requires FirstCrossing(s, threshold, shorter, k) == Some(j)
    ensures FirstCrossing(s, threshold, longer, k) == Some(j)
    decreases shorter - k
  {
    if BalanceAfter(s, k + 1) > threshold {
      FirstCrossingBeyondHorizon(s, threshold, shorter, longer, k + 1, j);
    }
  }

  /**
   * Closed form of the walk after `k` months: with `R = rate / 12` and
   * `G = 1 + R`, `R * B_k == R * L * G^k - (payment + extra) * (G^k - 1)`.
   */
  predicate ClosedFormHolds(s: Schedule, k: nat) {
    BalanceAfter(s, k) * (s.annualRate / 12.0)
      == s.principal * (s.annualRate / 12.0) * Pow(1.0 + s.annualRate / 12.0, k)
         - (s.payment + s.extra) * (Pow(1.0 + s.annualRate / 12.0, k) - 1.0)
  }

  lemma {:induction false} ClosedFormBalance(s: Schedule, k: nat)
    ensures ClosedFormHolds(s, k)
  {
    if k == 0 {
      ClosedFormAtOrigination(s);
    } else {
      ClosedFormBalance(s, k - 1);
      ClosedFormNextMonth(s, k);
    }
  }

  lemma ClosedFormAtOrigination(s: Schedule)
    ensures ClosedFormHolds(s, 0)
  {
    assert Pow(1.0 + s.annualRate / 12.0, 0) == 1.0;
  }

  lemma ClosedFormNextMonth(s: Schedule, k: nat)
    requires k > 0 && ClosedFormHolds(s, k - 1)
    ensures ClosedFormHolds(s, k)
  {
    var r := s.annualRate / 12.0;
    BalanceStep(s, k);
    ClosedFormStep(BalanceAfter(s, k - 1), BalanceAfter(s, k), s.principal, r, s.payment + s.extra,
                   Pow(1.0 + r, k - 1), Pow(1.0 + r, k));
  }

  /** One month of the walk with the interest written as `balance * R`. */
  lemma BalanceStep(s: Schedule, k: nat)
    requires k > 0
    ensures BalanceAfter(s, k)
         == BalanceAfter(s, k - 1) - ((s.payment + s.extra) - BalanceAfter(s, k - 1) * (s.annualRate / 12.0))
  {
    var b := BalanceAfter(s, k - 1);
    assert BalanceAfter(s, k) == NextBalance(s, b);
    InterestAsMonthlyRate(b, s.annualRate);
  }

  lemma InterestAsMonthlyRate(balance: real, annualRate: real)
    ensures MonthInterest(balance, annualRate) == balance * (annualRate / 12.0)
  {
  }

  /** One month of ClosedFormBalance, on plain reals: `b` is the balance before, `b'` after. */
  lemma ClosedFormStep(b: real, b': real, principal: real, r: real, q: real, x: real, g: real)
    requires b * r == principal * r * x - q * (x - 1.0)
    requires b' == b - (q - b * r)
    requires g == (1.0 + r) * x
    ensures b' * r == principal * r * g - q * (g - 1.0)
  {
    calc {
      b' * r;
      (b * (1.0 + r) - q) * r;
      (b * r) * (1.0 + r) - q * r;
      (principal * r * x - q * (x - 1.0)) * (1.0 + r) - q * r;
      principal * r * ((1.0 + r) * x) - q * ((1.0 + r) * x - 1.0);
    }
  }

  /**
   * A payment `p` satisfying the annuity equation `p * (1 - 1/G^n) == L * R`
   * brings the balance to exactly zero after `n` months.
   */
  lemma AnnuityPaymentAmortizes(s: Schedule, n: nat, x: real)
    requires s.extra == 0.0 && s.annualRate / 12.0 != 0.0
    requires x == Pow(1.0 + s.annualRate / 12.0, n) && x != 0.0 && x != 1.0
    requires s.payment * (1.0 - 1.0 / x) == s.principal * (s.annualRate / 12.0)
    ensures BalanceAfter(s, n) == 0.0
  {
    ClosedFormBalance(s, n);
    ZeroFromClosedForm(BalanceAfter(s, n), s.principal, s.annualRate / 12.0, x, s.payment, s.payment + s.extra);
  }

  /** The formula is undefined for a zero rate: the denominator is `1 - 1^-n == 0`. */
  lemma FormulaNeedsNonZeroRate(annualRate: real, termInMonths: nat)
    requires FormulaDefined(annualRate, termInMonths)
    ensures annualRate != 0.0 && annualRate / 12.0 != 0.0
  {
    if annualRate == 0.0 {
      PowOfOne(termInMonths);
      assert false;
    }
  }

  lemma DenominatorNonZero(x: real)
    requires x != 0.0 && x != 1.0
    ensures 1.0 - 1.0 / x != 0.0
  {
  }

  lemma QuotientTimesDivisor(a: real, d: real)
    requires d != 0.0
    ensures (a / d) * d == a
  {
  }

  /** The algebra behind AnnuityPaymentAmortizes, on plain reals. */
  lemma ZeroFromClosedForm(b: real, principal: real, r: real, x: real, p: real, q: real)
    requires r != 0.0 && x != 0.0 && q == p
    requires p * (1.0 - 1.0 / x) == principal * r
    requires b * r == principal * r * x - q * (x - 1.0)
    ensures b == 0.0
  {
    var d := 1.0 - 1.0 / x;
    assert d * x == x - 1.0;
    assert p * (x - 1.0) == principal * r * x by {
      calc {
        p * (x - 1.0);
        p * (d * x);
        (p * d) * x;
        principal * r * x;
      }
    }
    assert b * r == 0.0;
  }

  /**
   * While every balance entering a month stays above a non-negative
   * threshold, each month charges non-negative interest, so the running total
   * never decreases and never drops below zero.
   */
  lemma {:induction false} InterestNonDecreasing(s: Schedule, threshold: real, j: nat, k: nat)
    requires s.annualRate >= 0.0 && threshold >= 0.0
    requires forall m :: 0 <= m < k ==> BalanceAfter(s, m) > threshold
    requires j <= k
    ensures 0.0 <= InterestThrough(s, j) <= InterestThrough(s, k)
  {
    if k > 0 {
      var b := BalanceAfter(s, k - 1);
      assert b > threshold;
      assert MonthInterest(b, s.annualRate) >= 0.0 by {
        assert b * s.annualRate >= 0.0;
      }
      if j < k {
        InterestNonDecreasing(s, threshold, j, k - 1);
      } else {
        InterestNonDecreasing(s, threshold, k - 1, k - 1);
      }
    }
  }

  /** Two schedules that differ at most in their extra principal, the second paying no less. */
  predicate MoreExtra(s1: Schedule, s2: Schedule) {
    s1.principal == s2.principal && s1.annualRate == s2.annualRate &&
    s1.payment == s2.payment && s1.extra <= s2.extra
  }

  /** One month's update is monotone in the balance and antitone in the extra principal. */
  lemma NextBalanceMonotone(s1: Schedule, s2: Schedule, b1: real, b2: real)
    requires MoreExtra(s1, s2) && s1.annualRate >= -12.0 && b2 <= b1
    ensures NextBalance(s2, b2) <= NextBalance(s1, b1)
  {
    var d, g := b1 - b2, 1.0 + s1.annualRate / 12.0;
    assert d >= 0.0 && g >= 0.0;
    assert d * g >= 0.0;
    assert d * g == d + MonthInterest(b1, s1.annualRate) - MonthInterest(b2, s1.annualRate);
  }

  /** With a non-negative rate a smaller balance is charged no more interest. */
  lemma MonthInterestMonotone(b1: real, b2: real, annualRate: real)
    requires b2 <= b1 && annualRate >= 0.0
    ensures MonthInterest(b2, annualRate) <= MonthInterest(b1, annualRate)
  {
    assert (b1 - b2) * annualRate >= 0.0;
  }

  /** Paying more extra principal each month never leaves a larger balance. */
  lemma {:induction false} MoreExtraLowerBalance(s1: Schedule, s2: Schedule, k: nat)
    requires MoreExtra(s1, s2) && s1.annualRate >= -12.0
    ensures BalanceAfter(s2, k) <= BalanceAfter(s1, k)
  {
    if k > 0 {
      MoreExtraLowerBalance(s1, s2, k - 1);
      NextBalanceMonotone(s1, s2, BalanceAfter(s1, k - 1), BalanceAfter(s2, k - 1));
    }
  }

  /** With a non-negative rate, more extra principal never charges more interest over the same months. */
  lemma {:induction false} MoreExtraLessInterest(s1: Schedule, s2: Schedule, k: nat)
    requires MoreExtra(s1, s2) && s1.annualRate >= 0.0
    ensures InterestThrough(s2, k) <= InterestThrough(s1, k)
  {
    if k > 0 {
      MoreExtraLessInterest(s1, s2, k - 1);
      MoreExtraLowerBalance(s1, s2, k - 1);
      MonthInterestMonotone(BalanceAfter(s1, k - 1), BalanceAfter(s2, k - 1), s1.annualRate);
    }
  }

  /** More extra principal crosses any threshold no later. */
  lemma MoreExtraCrossesNoLater(s1: Schedule, s2: Schedule, threshold: real, last: nat, k1: nat)
    requires MoreExtra(s1, s2) && s1.annualRate >= -12.0
    requires FirstCrossing(s1, threshold, last, 0) == Some(k1)
    ensures FirstCrossing(s2, threshold, last, 0).Some?
    ensures FirstCrossing(s2, threshold, last, 0).value <= k1
  {
    FirstCrossingIsFirst(s1, threshold, last, 0);
    FirstCrossingIsFirst(s2, threshold, last, 0);
    MoreExtraLowerBalance(s1, s2, k1);
  }
}
