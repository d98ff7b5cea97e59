/** The shared data-transfer types of the loan service (BookHub.Shared.DTOs). */
module Dtos {
  import opened Wrappers

  /** A 128-bit globally unique identifier; the service only compares them. */
  newtype Guid = x: int | 0 <= x < 0x1_0000_0000_0000_0000_0000_0000_0000_0000

  /** A UTC instant, in whole seconds. */
  type DateTime = int

  const SecondsPerDay: int := 86400

  /** The C# `int`: 32-bit two's complement. */
  newtype Int32 = x: int | -0x8000_0000 <= x < 0x8000_0000

  /** A `decimal` amount of money, counted in cents so that it stays exact. */
  type Cents = int

  /** Declared in this order, so `(LoanStatus)(int)s` maps each status to its namesake. */
  datatype LoanStatus = Active | Returned | Overdue

  /** The read model of a loan, returned by every operation of the service. */
  datatype LoanDto = LoanDto(
    id: Guid,
    userId: Guid,
    bookId: Guid,
    bookTitle: string,
    userEmail: string,
    loanDate: DateTime,
    dueDate: DateTime,
    returnDate: Option<DateTime>,
    status: LoanStatus,
    penaltyAmount: Cents)

  /** The body of a create request. */
  datatype CreateLoanDto = CreateLoanDto(userId: Guid, bookId: Guid, durationDays: Int32)
}
