/**
 * A client of the services, showing what their contracts alone let a caller
 * conclude: a book with one copy, checked out twice and returned once.
 */
module Scenario {
  import opened Results
  import opened Timestamps
  import opened Entities
  import opened Repositories
  import opened Users
  import opened Books
  import opened BorrowingReport
  import opened Borrowing

  method OneCopyTwoLoans(now: Timestamp, due: Timestamp)
    requires Valid(now) && Before(now, due)
  {
    var users := new UsersService();
    var books := new BooksService();
    var loans := new BorrowingProcessService(users, books);

    var reader := users.SaveOne(None, User("Reader", "reader@example.org", "hashed", Borrower));
    var created := books.Create(Book("Title", "Author", "About", 111, "A1", 1));
    assert created.Ok?;
    var bookId := created.value.id;

    // an unknown borrower is refused before the book is even looked up
    var refused := loans.Create(reader.id + 1, bookId + 1, due, now);
    assert refused == Err(NotFound(UserNotFound));

    var first := TwoCheckoutsOfOneCopy(loans, reader.id, bookId, due, now);
    ReturnTwice(loans, first, bookId, now);
  }

  /** Both checkouts of the only copy succeed; the second leaves the quantity at 0. */
  method TwoCheckoutsOfOneCopy(loans: BorrowingProcessService, readerId: int, bookId: int, due: Timestamp, now: Timestamp)
    returns (first: int)
    requires loans.Valid() && Valid(now) && Before(now, due)
    requires readerId in loans.users.repo.rows && bookId in loans.books.repo.rows
    requires loans.books.repo.rows[bookId].availableQuantity == 1
    modifies loans.books.repo, loans.repo
    ensures loans.Valid()
    ensures first in loans.repo.rows && loans.repo.rows[first].bookId == bookId
    ensures bookId in loans.books.repo.rows && loans.books.repo.rows[bookId].availableQuantity == 0
  {
    var one := loans.Create(readerId, bookId, due, now);
    assert loans.books.repo.rows[bookId].availableQuantity == 0;

    // no copy left: the loan is still recorded and the quantity stays 0
    var two := loans.Create(readerId, bookId, due, now);
    assert two.Ok? && two.value.id != one.value.id;
    assert StatusOf(two.value.entity, now) == Active;
    first := one.value.id;
  }

  /** Each return of the same loan adds a copy, although one loan is still open. */
  method ReturnTwice(loans: BorrowingProcessService, first: int, bookId: int, now: Timestamp)
    requires loans.Valid()
    requires first in loans.repo.rows && loans.repo.rows[first].bookId == bookId
    requires bookId in loans.books.repo.rows && loans.books.repo.rows[bookId].availableQuantity == 0
    modifies loans.books.repo, loans.repo
  {
    var returned := loans.ReturnBook(first, now);
    assert loans.books.repo.rows[bookId].availableQuantity == 1;
    assert StatusOf(returned.value.entity, now) == Returned;

    // the same loan returned again adds another copy
    var again := loans.ReturnBook(first, now);
    assert loans.books.repo.rows[bookId].availableQuantity == 2;
  }
}
