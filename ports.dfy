/** The collaborators the loan service is given: the user-service client, the
    catalog-service client and the loan repository. Their implementations are
    remote or not part of this model; each is reduced to the state it exposes and
    the contract the service relies on. */
module Ports {
  import opened Wrappers
  import opened Dtos
  import opened Loans

  /** What the user service reports about a user; only the e-mail is read. */
  datatype UserSnapshot = UserSnapshot(email: string)

  /** What the catalog reports about a book; only the title is read. */
  datatype BookSnapshot = BookSnapshot(title: string)

  /** The requests the loan service sends to the catalog, in order. */
  datatype CatalogCall =
    | BookLookup(bookId: Guid)
    | Decrement(bookId: Guid)
    | Increment(bookId: Guid)

  /** The catalog's counters after giving back one copy of a book; unknown books are left alone. */
  function Incremented(availability: map<Guid, int>, bookId: Guid): (after: map<Guid, int>)
    ensures after.Keys == availability.Keys
    ensures forall b :: b in availability && b != bookId ==> after[b] == availability[b]
    ensures bookId in availability ==> after[bookId] == availability[bookId] + 1
  {
    if bookId in availability then availability[bookId := availability[bookId] + 1] else availability
  }

  /** The user directory, as seen through the user-service client. */
  class UserServiceClient {
    var users: map<Guid, UserSnapshot>

    constructor (users: map<Guid, UserSnapshot>)
      ensures this.users == users
    {
      this.users := users;
    }

    /** Null (None) for an unknown user. */
    method GetUser(userId: Guid) returns (user: Option<UserSnapshot>)
      ensures user.Some? <==> userId in users
      ensures user.Some? ==> user.value == users[userId]
    {
      user := if userId in users then Some(users[userId]) else None;
    }
  }

  /** The catalog, as seen through the catalog-service client: the books it knows and
      a per-book availability counter. `calls` records every request made to it. */
  class CatalogServiceClient {
    var books: map<Guid, BookSnapshot>
    var availability: map<Guid, int>
    ghost var calls: seq<CatalogCall>

    constructor (books: map<Guid, BookSnapshot>, availability: map<Guid, int>)
      ensures this.books == books && this.availability == availability && calls == []
    {
      this.books, this.availability := books, availability;
      calls := [];
    }

    /** The catalog's decrement is taken to succeed exactly when the book is known
        and has a copy left. */
    predicate CanDecrement(bookId: Guid)
      reads this
    {
      bookId in availability && 0 < availability[bookId]
    }

    /** Null (None) for an unknown book. */
    method GetBook(bookId: Guid) returns (book: Option<BookSnapshot>)
      modifies this`calls
      ensures book.Some? <==> bookId in books
      ensures book.Some? ==> book.value == books[bookId]
      ensures calls == old(calls) + [BookLookup(bookId)]
    {
      book := if bookId in books then Some(books[bookId]) else None;
      calls := calls + [BookLookup(bookId)];
    }

    /** Takes one copy out of stock; false, with the counters untouched, when none is left. */
    method DecrementAvailability(bookId: Guid) returns (ok: bool)
      modifies this`availability, this`calls
      ensures ok == old(CanDecrement(bookId))
      ensures availability == if ok then old(availability)[bookId := old(availability)[bookId] - 1]
                              else old(availability)
      ensures calls == old(calls) + [Decrement(bookId)]
    {
      ok := CanDecrement(bookId);
      if ok {
        availability := availability[bookId := availability[bookId] - 1];
      }
      calls := calls + [Decrement(bookId)];
    }

    /** Puts one copy back into stock. */
    method IncrementAvailability(bookId: Guid)
      modifies this`availability, this`calls
      ensures availability == Incremented(old(availability), bookId)
      ensures calls == old(calls) + [Increment(bookId)]
    {
      availability := Incremented(availability, bookId);
      calls := calls + [Increment(bookId)];
    }
  }

  /** The loan store: loans keyed by their own id. */
  class LoanRepository {
    var loans: map<Guid, Loan>

    /** Every loan is stored under its own id. */
    ghost predicate Valid()
      reads this
    {
      forall id :: id in loans ==> loans[id].id == id
    }

    constructor (loans: map<Guid, Loan>)
      requires forall id :: id in loans ==> loans[id].id == id
      ensures Valid() && this.loans == loans
    {
      this.loans := loans;
    }

    method GetAll() returns (all: map<Guid, Loan>)
      ensures all == loans
    {
      all := loans;
    }

    /** Null (None) for an unknown id. */
    method GetById(id: Guid) returns (loan: Option<Loan>)
      ensures loan.Some? <==> id in loans
      ensures loan.Some? ==> loan.value == loans[id]
    {
      loan := if id in loans then Some(loans[id]) else None;
    }

    /** All loans of a user, whatever their status. */
    method GetByUserId(userId: Guid) returns (found: map<Guid, Loan>)
      ensures forall id :: id in found <==> id in loans && loans[id].userId == userId
      ensures forall id :: id in found ==> found[id] == loans[id]
    {
      found := map id | id in loans && loans[id].userId == userId :: loans[id];
    }

    /** The loans of a user that count against the borrowing limit. */
    method GetActiveLoansByUserId(userId: Guid) returns (active: map<Guid, Loan>)
      ensures active == ActiveLoansOf(loans, userId)
    {
      active := ActiveLoansOf(loans, userId);
    }

    method Add(loan: Loan)
      requires loan.id !in loans
      requires Valid()
      modifies this
      ensures Valid()
      ensures loans == old(loans)[loan.id := loan]
    {
      loans := loans[loan.id := loan];
    }

    method Update(loan: Loan)
      requires loan.id in loans
      requires Valid()
      modifies this
      ensures Valid()
      ensures loans == old(loans)[loan.id := loan]
    {
      loans := loans[loan.id := loan];
    }
  }
}
