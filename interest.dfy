/** The interest arithmetic of BankSystemGUI. */
module Interest {

  /** calculate_interest: the one-off interest on `amount` at `rate` percent,
      truncated to a whole number. The application computes
      int(amount / 100 * rate) in double-precision floating point: it can
      land one below the exact quotient (29 at 100 percent gives 28), above
      2^53 it can be off by more in either direction, and past the float
      range it raises OverflowError. This model keeps the intended integer
      quotient. */
  function CalculateInterest(amount: nat, rate: nat): (r: nat)
    ensures r * 100 <= amount * rate < r * 100 + 100
  {
    amount * rate / 100
  }

  /** calculate_monthly_interest: the interest for one month times the term. */
  function CalculateMonthlyInterest(interest: nat, months: nat): (r: nat)
    ensures months > 0 ==> r >= interest
    ensures interest > 0 ==> r >= months
  {
    interest * months
  }

  /** The stored total is the exact total amount * rate * months / 100 less a
      truncation loss of under one unit per month. */
  lemma TotalInterestBounds(amount: nat, rate: nat, months: nat)
    ensures var total := CalculateMonthlyInterest(CalculateInterest(amount, rate), months);
            && total * 100 <= amount * rate * months
            && (months > 0 ==> amount * rate * months < total * 100 + 100 * months)
  {
    var i := CalculateInterest(amount, rate);
    var x := amount * rate;
    assert i * 100 <= x < i * 100 + 100;
    MulMonotone(i * 100, x, months);
    MulStrictMonotone(x, i * 100 + 100, months);
    assert (i * 100 + 100) * months == i * months * 100 + 100 * months;
    assert i * 100 * months == i * months * 100;
  }

  lemma MulMonotone(a: nat, b: nat, m: nat)
    requires a <= b
    ensures a * m <= b * m
  {
  }

  lemma MulStrictMonotone(a: nat, b: nat, m: nat)
    requires a < b
    ensures m > 0 ==> a * m < b * m
  {
  }

  /** The cases the application's tests state. */
  lemma InterestExamples()
    ensures CalculateInterest(1000, 5) == 50
    ensures CalculateInterest(5000, 10) == 500
    ensures CalculateMonthlyInterest(100, 12) == 1200
    ensures CalculateMonthlyInterest(50, 6) == 300
  {
  }
}
