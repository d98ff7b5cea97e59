/** The loan entity, the clock arithmetic it uses and its late-return penalty. */
module Loans {
  import opened Wrappers
  import opened Dtos

  /** The loan entity as the repository stores it. */
  datatype Loan = Loan(
    id: Guid,
    userId: Guid,
    bookId: Guid,
    bookTitle: string,
    userEmail: string,
    loanDate: DateTime,
    dueDate: DateTime,
    returnDate: Option<DateTime>,
    status: LoanStatus,
    penaltyAmount: Cents)

  /** 0.50 per whole day late. */
  const PenaltyCentsPerDay: Cents := 50

  /** `DateTime.AddDays` for a whole number of days: the span it adds is exactly
      `days` whole days long. */
  function AddDays(t: DateTime, days: int): (r: DateTime)
    ensures WholeDays(r - t) == days
    ensures (r - t) % SecondsPerDay == 0
    ensures days <= 0 <==> r <= t
  {
    t + days * SecondsPerDay
  }

  /** `TimeSpan.Days`: the whole days in a span, truncated toward zero. */
  function WholeDays(span: int): (days: int)
    ensures 0 <= span ==> 0 <= days && days * SecondsPerDay <= span < (days + 1) * SecondsPerDay
    ensures span < 0 ==> days <= 0 && (days - 1) * SecondsPerDay < span <= days * SecondsPerDay
  {
    if 0 <= span then span / SecondsPerDay else -((-span) / SecondsPerDay)
  }

  /** The entity's CalculatePenalty: nothing unless the loan came back after its due
      date, and then 0.50 for every whole day of lateness. */
  function CalculatePenalty(dueDate: DateTime, returnDate: Option<DateTime>): (cents: Cents)
    ensures 0 <= cents
    ensures cents % PenaltyCentsPerDay == 0
    ensures cents != 0 ==> returnDate.Some? && dueDate + SecondsPerDay <= returnDate.value
  {
    if returnDate.None? || returnDate.value <= dueDate then 0
    else WholeDays(returnDate.value - dueDate) * PenaltyCentsPerDay
  }

  /** The penalty is 50 cents times the unique number of days `k` with
      `k` days <= lateness < `k + 1` days, and nothing when not late. */
  lemma PenaltyCountsWholeDaysLate(dueDate: DateTime, returnDate: DateTime)
    ensures var cents := CalculatePenalty(dueDate, Some(returnDate));
            var k := cents / PenaltyCentsPerDay;
            && cents == k * PenaltyCentsPerDay
            && (returnDate <= dueDate ==> k == 0)
            && (dueDate < returnDate ==>
                  k * SecondsPerDay <= returnDate - dueDate < (k + 1) * SecondsPerDay)
  {
  }

  /** Less than a full day late costs nothing. */
  lemma PenaltyFreeWithinADay(dueDate: DateTime, returnDate: DateTime)
    requires returnDate < dueDate + SecondsPerDay
    ensures CalculatePenalty(dueDate, Some(returnDate)) == 0
  {
  }

  /** A later return never costs less. */
  lemma PenaltyMonotonic(dueDate: DateTime, earlier: DateTime, later: DateTime)
    requires earlier <= later
    ensures CalculatePenalty(dueDate, Some(earlier)) <= CalculatePenalty(dueDate, Some(later))
  {
  }

  /** Worked values: on time, two and three days late, a day early, an hour late. */
  lemma PenaltyExamples(dueDate: DateTime)
    ensures CalculatePenalty(dueDate, None) == 0
    ensures CalculatePenalty(dueDate, Some(dueDate)) == 0
    ensures CalculatePenalty(dueDate, Some(dueDate - SecondsPerDay)) == 0
    ensures CalculatePenalty(dueDate, Some(dueDate + 3600)) == 0
    ensures CalculatePenalty(dueDate, Some(dueDate + 2 * SecondsPerDay)) == 100
    ensures CalculatePenalty(dueDate, Some(dueDate + 3 * SecondsPerDay)) == 150
  {
  }

  /** Status and return date agree, and the penalty is never negative. */
  predicate WellFormed(loan: Loan)
  {
    && (loan.returnDate.Some? <==> loan.status == Returned)
    && 0 <= loan.penaltyAmount
  }

  predicate AllWellFormed(loans: map<Guid, Loan>)
  {
    forall id :: id in loans ==> WellFormed(loans[id])
  }

  /** The stored penalty is what CalculatePenalty gives for the stored dates. */
  predicate PenaltyConsistent(loan: Loan)
  {
    loan.penaltyAmount == CalculatePenalty(loan.dueDate, loan.returnDate)
  }

  /** A loan counts against the borrowing limit until it is returned. */
  predicate IsActive(loan: Loan)
  {
    loan.status != Returned
  }

  /** The loans of one user that count against the limit, keyed by id. */
  function ActiveLoansOf(loans: map<Guid, Loan>, userId: Guid): (active: map<Guid, Loan>)
    ensures forall id :: id in active ==> id in loans && active[id] == loans[id] && active[id].userId == userId && IsActive(active[id])
    ensures forall id :: id in loans && loans[id].userId == userId && IsActive(loans[id]) ==> id in active
  {
    map id | id in loans && loans[id].userId == userId && IsActive(loans[id]) :: loans[id]
  }

  function ActiveLoanCount(loans: map<Guid, Loan>, userId: Guid): nat
  {
    |ActiveLoansOf(loans, userId)|
  }

  /** Storing a loan under a fresh id raises its user's active count by one when it
      is active, and leaves every other count alone. */
  lemma ActiveLoanCountAfterAdd(loans: map<Guid, Loan>, loan: Loan, userId: Guid)
    requires loan.id !in loans
    ensures ActiveLoanCount(loans[loan.id := loan], userId)
         == ActiveLoanCount(loans, userId) + (if loan.userId == userId && IsActive(loan) then 1 else 0)
  {
    var before, after := ActiveLoansOf(loans, userId), ActiveLoansOf(loans[loan.id := loan], userId);
    if loan.userId == userId && IsActive(loan) {
      assert after == before[loan.id := loan];
    } else {
      assert after == before;
    }
  }
}
