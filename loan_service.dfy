/** The loan service: the create and return workflows, the read queries and the
    projection of the entity to its read model. */
module LoanServices {
  import opened Wrappers
  import opened Dtos
  import opened Loans
  import opened Ports

  /** A user may hold at most this many active loans. */
  const MaxActiveLoans: nat := 5

  /** A loan lasts at most this many days. */
  const MaxDurationDays: Int32 := 21

  /** Why a create request is rejected, one case per exception the workflow throws. */
  datatype CreateLoanError =
    | UserNotFound(userId: Guid)
    | TooManyActiveLoans(userId: Guid)
    | BookNotFound(bookId: Guid)
    | BookNotAvailable(bookId: Guid)

  /** The due date of a loan made at `loanDate`: the requested days, capped at 21. */
  function DueDateFor(loanDate: DateTime, durationDays: Int32): (dueDate: DateTime)
    ensures WholeDays(dueDate - loanDate) <= MaxDurationDays as int
    ensures WholeDays(dueDate - loanDate) <= durationDays as int
    ensures durationDays <= 0 ==> dueDate <= loanDate
  {
    AddDays(loanDate, if durationDays < MaxDurationDays then durationDays as int else MaxDurationDays as int)
  }

  /** The loan is a whole number of days long: no more than 21 days and no more than
      requested, and exactly one of the two. Nothing is added to a non-positive request. */
  lemma DueDateIsCappedRequest(loanDate: DateTime, durationDays: Int32)
    ensures var length := DueDateFor(loanDate, durationDays) - loanDate;
            var days := length / SecondsPerDay;
            && length == days * SecondsPerDay
            && days <= MaxDurationDays as int
            && days <= durationDays as int
            && (days == MaxDurationDays as int || days == durationDays as int)
    ensures durationDays <= 0 ==> DueDateFor(loanDate, durationDays) <= loanDate
    ensures durationDays == 30 ==> DueDateFor(loanDate, durationDays) == loanDate + 21 * SecondsPerDay
  {
  }

  /** The loan a successful create request stores. */
  function NewLoan(id: Guid, request: CreateLoanDto, book: BookSnapshot, user: UserSnapshot, now: DateTime): (loan: Loan)
    ensures loan.id == id && loan.loanDate == now
    ensures loan.status == Active && loan.returnDate.None? && loan.penaltyAmount == 0
    ensures WellFormed(loan) && PenaltyConsistent(loan) && IsActive(loan)
    ensures loan.dueDate <= AddDays(now, MaxDurationDays as int)
  {
    Loan(id, request.userId, request.bookId, book.title, user.email,
         now, DueDateFor(now, request.durationDays), None, Active, 0)
  }

  /** A new loan is active, unreturned, free of penalty, and snapshots the
      catalog's title and the directory's e-mail. */
  lemma NewLoanIsFresh(id: Guid, request: CreateLoanDto, book: BookSnapshot, user: UserSnapshot, now: DateTime)
    ensures var loan := NewLoan(id, request, book, user, now);
            && loan.id == id && loan.userId == request.userId && loan.bookId == request.bookId
            && loan.bookTitle == book.title && loan.userEmail == user.email
            && loan.loanDate == now && IsActive(loan) && loan.status == Active
            && WellFormed(loan) && PenaltyConsistent(loan) && loan.penaltyAmount == 0
  {
  }

  /** The loan after a return at `now`: stamped, closed, and charged when late. */
  function MarkReturned(loan: Loan, now: DateTime): (returned: Loan)
    ensures returned.returnDate == Some(now) && returned.status == Returned && !IsActive(returned)
    ensures returned.id == loan.id && returned.bookId == loan.bookId && returned.dueDate == loan.dueDate
    ensures returned.penaltyAmount != loan.penaltyAmount ==> loan.dueDate < now
    ensures WellFormed(loan) ==> WellFormed(returned)
  {
    var stamped := loan.(returnDate := Some(now), status := Returned);
    if stamped.dueDate < now then stamped.(penaltyAmount := CalculatePenalty(stamped.dueDate, stamped.returnDate))
    else stamped
  }

  /** A return stamps the date and closes the loan; the penalty changes only when the
      loan came back after its due date; nothing that identifies the loan changes. */
  lemma MarkReturnedEffect(loan: Loan, now: DateTime)
    ensures var r := MarkReturned(loan, now);
            && r.returnDate == Some(now) && r.status == Returned && !IsActive(r)
            && r.id == loan.id && r.userId == loan.userId && r.bookId == loan.bookId
            && r.bookTitle == loan.bookTitle && r.userEmail == loan.userEmail
            && r.loanDate == loan.loanDate && r.dueDate == loan.dueDate
            && (r.penaltyAmount != loan.penaltyAmount ==> loan.dueDate < now)
            && (loan.dueDate < now ==> r.penaltyAmount == CalculatePenalty(loan.dueDate, Some(now)))
            && (WellFormed(loan) ==> WellFormed(r))
  {
  }

  /** With a clock that does not go back, a return keeps the stored penalty equal to
      what the stored dates call for, even when the loan had already been returned. */
  lemma MarkReturnedKeepsPenaltyConsistent(loan: Loan, now: DateTime)
    requires PenaltyConsistent(loan)
    requires loan.returnDate.Some? ==> loan.returnDate.value <= now
    ensures PenaltyConsistent(MarkReturned(loan, now))
  {
  }

  /** There is no guard against a second return: it re-stamps the return date and
      recharges from the new date. */
  lemma SecondReturnRestamps(loan: Loan, first: DateTime, second: DateTime)
    requires loan.dueDate < second
    ensures var twice := MarkReturned(MarkReturned(loan, first), second);
            && twice.returnDate == Some(second) && twice.status == Returned
            && twice.penaltyAmount == CalculatePenalty(loan.dueDate, Some(second))
  {
  }

  /** The read model of a loan: every field copied. It carries the loan's id, and
      the entity's invariant holds of it too. */
  function MapToDto(loan: Loan): (dto: LoanDto)
    ensures dto.id == loan.id && dto.userId == loan.userId && dto.bookId == loan.bookId
    ensures WellFormed(loan) ==> (dto.returnDate.Some? <==> dto.status == Returned) && 0 <= dto.penaltyAmount
    ensures PenaltyConsistent(loan) ==> dto.penaltyAmount == CalculatePenalty(dto.dueDate, dto.returnDate)
  {
    LoanDto(loan.id, loan.userId, loan.bookId, loan.bookTitle, loan.userEmail,
            loan.loanDate, loan.dueDate, loan.returnDate, loan.status, loan.penaltyAmount)
  }

  /** The projection loses nothing: distinct loans have distinct read models. */
  lemma MapToDtoInjective(a: Loan, b: Loan)
    ensures MapToDto(a) == MapToDto(b) <==> a == b
  {
  }

  /** The read models of all stored loans. */
  function LoanDtos(loans: map<Guid, Loan>): set<LoanDto>
  {
    set id | id in loans :: MapToDto(loans[id])
  }

  /** Loans stored under their own ids give exactly one read model each. */
  lemma {:induction false} LoanDtosOnePerLoan(loans: map<Guid, Loan>)
    requires forall id :: id in loans ==> loans[id].id == id
    ensures |LoanDtos(loans)| == |loans|
    decreases |loans|
  {
    if loans != map[] {
      var k :| k in loans;
      var rest := loans - {k};
      LoanDtosOnePerLoan(rest);
      forall d | d in LoanDtos(loans)
        ensures d in LoanDtos(rest) + {MapToDto(loans[k])}
      {
        var id :| id in loans && d == MapToDto(loans[id]);
        if id != k {
          assert id in rest;
        }
      }
      assert LoanDtos(loans) == LoanDtos(rest) + {MapToDto(loans[k])};
      assert MapToDto(loans[k]) !in LoanDtos(rest);
    }
  }

  class LoanService {
    const repository: LoanRepository
    const catalogClient: CatalogServiceClient
    const userClient: UserServiceClient

    constructor (repository: LoanRepository, catalogClient: CatalogServiceClient, userClient: UserServiceClient)
      ensures this.repository == repository && this.catalogClient == catalogClient && this.userClient == userClient
    {
      this.repository := repository;
      this.catalogClient := catalogClient;
      this.userClient := userClient;
    }

    /** Every stored loan, as read models. */
    method GetAllLoans() returns (dtos: set<LoanDto>)
      requires repository.Valid()
      ensures forall id :: id in repository.loans ==> MapToDto(repository.loans[id]) in dtos
      ensures forall d :: d in dtos ==> d.id in repository.loans && d == MapToDto(repository.loans[d.id])
      ensures |dtos| == |repository.loans|
    {
      var loans := repository.GetAll();
      dtos := set id | id in loans :: MapToDto(loans[id]);
      LoanDtosOnePerLoan(loans);
    }

    /** One loan's read model, or null (None) for an unknown id. */
    method GetLoanById(id: Guid) returns (dto: Option<LoanDto>)
      requires repository.Valid()
      ensures dto.None? <==> id !in repository.loans
      ensures dto.Some? ==> dto.value.id == id && dto.value == MapToDto(repository.loans[id])
    {
      var loan := repository.GetById(id);
      dto := if loan.None? then None else Some(MapToDto(loan.value));
    }

    /** The read models of every loan of one user, whatever its status. */
    method GetLoansByUserId(userId: Guid) returns (dtos: set<LoanDto>)
      requires repository.Valid()
      ensures forall id :: id in repository.loans && repository.loans[id].userId == userId ==>
                MapToDto(repository.loans[id]) in dtos
      ensures forall d :: d in dtos ==>
                d.userId == userId && d.id in repository.loans && d == MapToDto(repository.loans[d.id])
    {
      var loans := repository.GetByUserId(userId);
      dtos := set id | id in loans :: MapToDto(loans[id]);
    }

    /** The create workflow: the user must exist, must hold fewer than five active loans,
        the book must exist, and the catalog must give up one copy; only then is the loan
        stored. Each failed check ends the request before the next one is made. */
    method CreateLoan(request: CreateLoanDto, now: DateTime, newId: Guid) returns (r: Result<LoanDto, CreateLoanError>)
      requires repository.Valid()
      requires newId !in repository.loans
      modifies repository, catalogClient
      ensures repository.Valid()
      ensures catalogClient.books == old(catalogClient.books)
      // 1. unknown user: nothing is asked of the catalog and nothing is stored
      ensures request.userId !in userClient.users ==>
                && r == Err(UserNotFound(request.userId))
                && repository.loans == old(repository.loans)
                && catalogClient.availability == old(catalogClient.availability)
                && catalogClient.calls == old(catalogClient.calls)
      // 2. limit reached: still no catalog request
      ensures request.userId in userClient.users
              && ActiveLoanCount(old(repository.loans), request.userId) >= MaxActiveLoans ==>
                && r == Err(TooManyActiveLoans(request.userId))
                && repository.loans == old(repository.loans)
                && catalogClient.availability == old(catalogClient.availability)
                && catalogClient.calls == old(catalogClient.calls)
      // 3. unknown book: looked up, never decremented
      ensures request.userId in userClient.users
              && ActiveLoanCount(old(repository.loans), request.userId) < MaxActiveLoans
              && request.bookId !in old(catalogClient.books) ==>
                && r == Err(BookNotFound(request.bookId))
                && repository.loans == old(repository.loans)
                && catalogClient.availability == old(catalogClient.availability)
                && catalogClient.calls == old(catalogClient.calls) + [BookLookup(request.bookId)]
      // 4. no copy left: the refused decrement is the last request, and no loan is stored
      ensures request.userId in userClient.users
              && ActiveLoanCount(old(repository.loans), request.userId) < MaxActiveLoans
              && request.bookId in old(catalogClient.books)
              && !old(catalogClient.CanDecrement(request.bookId)) ==>
                && r == Err(BookNotAvailable(request.bookId))
                && repository.loans == old(repository.loans)
                && catalogClient.availability == old(catalogClient.availability)
                && catalogClient.calls == old(catalogClient.calls) + [BookLookup(request.bookId), Decrement(request.bookId)]
      // every check passed: one copy taken, one loan stored under the fresh id
      ensures request.userId in userClient.users
              && ActiveLoanCount(old(repository.loans), request.userId) < MaxActiveLoans
              && request.bookId in old(catalogClient.books)
              && old(catalogClient.CanDecrement(request.bookId)) ==>
                var loan := NewLoan(newId, request, old(catalogClient.books)[request.bookId],
                                    userClient.users[request.userId], now);
                && r == Ok(MapToDto(loan))
                && repository.loans == old(repository.loans)[newId := loan]
                && catalogClient.availability
                   == old(catalogClient.availability)[request.bookId := old(catalogClient.availability)[request.bookId] - 1]
                && catalogClient.calls == old(catalogClient.calls) + [BookLookup(request.bookId), Decrement(request.bookId)]
      ensures r.Ok? ==> ActiveLoanCount(repository.loans, request.userId) <= MaxActiveLoans
      ensures old(AllWellFormed(repository.loans)) ==> AllWellFormed(repository.loans)
    {
      var user := userClient.GetUser(request.userId);
      if user.None? {
        return Err(UserNotFound(request.userId));
      }

      var userLoans := repository.GetActiveLoansByUserId(request.userId);
      if |userLoans| >= MaxActiveLoans {
        return Err(TooManyActiveLoans(request.userId));
      }

      var book := catalogClient.GetBook(request.bookId);
      if book.None? {
        return Err(BookNotFound(request.bookId));
      }

      var available := catalogClient.DecrementAvailability(request.bookId);
      if !available {
        return Err(BookNotAvailable(request.bookId));
      }

      var duration := if request.durationDays < MaxDurationDays then request.durationDays else MaxDurationDays;
      var loan := Loan(newId, request.userId, request.bookId, book.value.title, user.value.email,
                       now, AddDays(now, duration as int), None, Active, 0);
      ActiveLoanCountAfterAdd(repository.loans, loan, request.userId);
      repository.Add(loan);
      r := Ok(MapToDto(loan));
    }

    /** The return workflow: null (None) for an unknown id; otherwise the loan is
        stamped, closed, charged if late, stored back, and one copy of its book goes
        back to the catalog. A loan already returned is returned again. */
    method ReturnLoan(id: Guid, now: DateTime) returns (r: Option<LoanDto>)
      requires repository.Valid()
      modifies repository, catalogClient
      ensures repository.Valid()
      ensures catalogClient.books == old(catalogClient.books)
      ensures id !in old(repository.loans) ==>
                && r == None
                && repository.loans == old(repository.loans)
                && catalogClient.availability == old(catalogClient.availability)
                && catalogClient.calls == old(catalogClient.calls)
      ensures id in old(repository.loans) ==>
                var returned := MarkReturned(old(repository.loans)[id], now);
                && r == Some(MapToDto(returned))
                && repository.loans == old(repository.loans)[id := returned]
                && catalogClient.availability == Incremented(old(catalogClient.availability), returned.bookId)
                && catalogClient.calls == old(catalogClient.calls) + [Increment(returned.bookId)]
      ensures old(AllWellFormed(repository.loans)) ==> AllWellFormed(repository.loans)
    {
      var found := repository.GetById(id);
      if found.None? {
        return None;
      }

      var loan := found.value;
      loan := loan.(returnDate := Some(now));
      loan := loan.(status := Returned);
      if loan.dueDate < loan.returnDate.value {
        loan := loan.(penaltyAmount := CalculatePenalty(loan.dueDate, loan.returnDate));
      }
      repository.Update(loan);

      catalogClient.IncrementAvailability(loan.bookId);
      r := Some(MapToDto(loan));
    }
  }

  /** Two returns of the same loan both go through: the second re-stamps the loan and
      puts a second copy of the book back. */
  method ReturnTwice(service: LoanService, id: Guid, first: DateTime, second: DateTime)
    returns (r1: Option<LoanDto>, r2: Option<LoanDto>)
    requires service.repository.Valid()
    requires id in service.repository.loans
    requires service.repository.loans[id].bookId in service.catalogClient.availability
    modifies service.repository, service.catalogClient
    ensures r1.Some? && r2.Some?
    ensures r2.value.returnDate == Some(second) && r2.value.status == Returned
    ensures var b := old(service.repository.loans)[id].bookId;
            && b in service.catalogClient.availability
            && service.catalogClient.availability[b] == old(service.catalogClient.availability)[b] + 2
  {
    r1 := service.ReturnLoan(id, first);
    r2 := service.ReturnLoan(id, second);
  }
}
