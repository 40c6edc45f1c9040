/**
 * BorrowingProcessService: checkout and return, which move a book's
 * available_quantity by one, plus update, remove, lookup and the export.
 */
module Borrowing {
  import opened Results
  import opened Timestamps
  import opened Entities
  import opened Repositories
  import opened Users
  import opened Books
  import opened BorrowingReport

  /** The book as checkout leaves it: one copy fewer, unless no copy is left. */
  function CheckedOut(b: Book): (r: Book)
    ensures b.availableQuantity > 0 ==> r.availableQuantity == b.availableQuantity - 1
    ensures b.availableQuantity <= 0 ==> r == b
    ensures b.availableQuantity >= 0 ==> r.availableQuantity >= 0
    ensures r.(availableQuantity := b.availableQuantity) == b
  {
    if b.availableQuantity > 0 then b.(availableQuantity := b.availableQuantity - 1) else b
  }

  /** The book as a return leaves it: one copy more, with no ceiling. */
  function Restocked(b: Book): (r: Book)
    ensures r.availableQuantity == b.availableQuantity + 1
    ensures r.(availableQuantity := b.availableQuantity) == b
  {
    b.(availableQuantity := b.availableQuantity + 1)
  }

  /** The record checkout stores: borrowed now, due when asked, not returned. */
  function NewLoan(userId: int, bookId: int, dueDate: Timestamp, now: Timestamp): (bp: BorrowingProcess)
    ensures bp.borrowerId == userId && bp.bookId == bookId
    ensures bp.borrowedAt == now && bp.dueDate == dueDate
    ensures bp.returnedAt == None && !bp.isReturned
  {
    BorrowingProcess(userId, bookId, now, dueDate, None, false)
  }

  /** The record as a return leaves it: returned now, whatever it was before. */
  function MarkedReturned(bp: BorrowingProcess, now: Timestamp): (r: BorrowingProcess)
    ensures r.isReturned && r.returnedAt == Some(now)
    ensures r.borrowerId == bp.borrowerId && r.bookId == bp.bookId
    ensures r.borrowedAt == bp.borrowedAt && r.dueDate == bp.dueDate
  {
    bp.(returnedAt := Some(now), isReturned := true)
  }

  /** A checkout or a return of one book, as the quantity sees it. */
  datatype StockEvent = CheckOut | Return

  /** The book after a run of checkouts and returns, in order. */
  function BookAfter(b: Book, events: seq<StockEvent>): Book
    decreases |events|
  {
    if events == [] then b
    else BookAfter(if events[0] == CheckOut then CheckedOut(b) else Restocked(b), events[1..])
  }

  function CountReturns(events: seq<StockEvent>): nat
  {
    if events == [] then 0 else (if events[0] == Return then 1 else 0) + CountReturns(events[1..])
  }

  /**
   * No run of checkouts and returns drives a non-negative quantity below zero,
   * and the quantity never exceeds the starting one plus the returns made.
   */
  lemma {:induction false} StockStaysInBounds(b: Book, events: seq<StockEvent>)
    requires b.availableQuantity >= 0
    ensures 0 <= BookAfter(b, events).availableQuantity <= b.availableQuantity + CountReturns(events)
    decreases |events|
  {
    if events != [] {
      var next := if events[0] == CheckOut then CheckedOut(b) else Restocked(b);
      StockStaysInBounds(next, events[1..]);
    }
  }

  /** Returns are not idempotent: n returns add n copies, whatever came before. */
  lemma {:induction false} ReturnsAccumulate(b: Book, n: nat)
    ensures BookAfter(b, seq(n, _ => Return)).availableQuantity == b.availableQuantity + n
    decreases n
  {
    if n > 0 {
      var rest := seq(n - 1, _ => Return);
      assert seq(n, _ => Return) == [Return] + rest;
      assert ([Return] + rest)[1..] == rest;
      ReturnsAccumulate(Restocked(b), n - 1);
    }
  }

  /**
   * One copy in stock, two checkouts, one return: the second checkout leaves
   * the quantity at 0, and the return brings it to 1 although a loan is open.
   */
  lemma ZeroStockCheckoutThenReturn(b: Book)
    requires b.availableQuantity == 1
    ensures CheckedOut(b).availableQuantity == 0
    ensures CheckedOut(CheckedOut(b)).availableQuantity == 0
    ensures Restocked(CheckedOut(CheckedOut(b))).availableQuantity == 1
  {
  }

  class BorrowingProcessService {
    const repo: Repository<BorrowingProcess>
    const users: UsersService
    const books: BooksService

    /** Besides the repositories' own invariants: every stored borrowed_at is a calendar date. */
    ghost predicate Valid()
      reads repo, users.repo, books.repo
    {
      && repo.Valid() && repo.notFoundMsg == BookNotFound
      && users.Valid() && books.Valid()
      && (forall id :: id in repo.rows ==> Timestamps.Valid(repo.rows[id].borrowedAt))
    }

    /** The borrowings repository is built with the message 'Book not found'. */
    constructor (users: UsersService, books: BooksService)
      requires users.Valid() && books.Valid()
      ensures Valid() && fresh(repo) && repo.rows == map[]
      ensures this.users == users && this.books == books
    {
      repo := new Repository(BookNotFound);
      this.users := users;
      this.books := books;
    }

    /**
     * `create(dto)` (checkout): the user is looked up first, then the book;
     * either missing fails with its NotFound and changes nothing. Otherwise the
     * book is CheckedOut and a NewLoan record is stored, even at zero stock.
     */
    method Create(userId: int, bookId: int, dueDate: Timestamp, now: Timestamp)
      returns (r: Result<Row<BorrowingProcess>>)
      requires Valid() && Timestamps.Valid(now)
      modifies books.repo, repo
      ensures Valid()
      ensures userId !in users.repo.rows ==>
        && r == Err(NotFound(UserNotFound))
        && books.repo.rows == old(books.repo.rows) && repo.rows == old(repo.rows)
      ensures userId in users.repo.rows && bookId !in old(books.repo.rows) ==>
        && r == Err(NotFound(BookNotFound))
        && books.repo.rows == old(books.repo.rows) && repo.rows == old(repo.rows)
      ensures userId in users.repo.rows && bookId in old(books.repo.rows) ==>
        && r.Ok? && r.value.entity == NewLoan(userId, bookId, dueDate, now)
        && r.value.id !in old(repo.rows)
        && repo.rows == old(repo.rows)[r.value.id := r.value.entity]
        && books.repo.rows == old(books.repo.rows)[bookId := CheckedOut(old(books.repo.rows)[bookId])]
      ensures UniqueIsbns(old(books.repo.rows)) ==> UniqueIsbns(books.repo.rows)
    {
      var user := users.FindOneById(userId);
      if user.Err? {
        return Err(user.error);
      }
      var found := books.FindOneById(bookId);
      if found.Err? {
        return Err(found.error);
      }
      var book := found.value.entity;
      if book.availableQuantity > 0 {
        book := book.(availableQuantity := book.availableQuantity - 1);
        AssignWholeBook(old(books.repo.rows)[bookId], book);
        var _ := books.Update(bookId, WholeBook(book));
      }
      if UniqueIsbns(old(books.repo.rows)) {
        SameKeyKeepsUniqueBy(old(books.repo.rows), IsbnOf, bookId, book);
      }
      var loan := repo.Create(NewLoan(userId, bookId, dueDate, now));
      var saved := repo.SaveOne(None, loan);
      r := Ok(saved);
    }

    /** `findOne(id)`: the stored record, or NotFound carrying 'Book not found'. */
    method FindOne(id: int) returns (r: Result<Row<BorrowingProcess>>)
      requires Valid()
      ensures id in repo.rows ==> r == Ok(Row(id, repo.rows[id]))
      ensures id !in repo.rows ==> r == Err(NotFound(BookNotFound))
    {
      r := repo.FindOneOrThrow((k, bp) => k == id);
    }

    /**
     * `returnBook(id)`: NotFound('Book not found') for an unknown id. Otherwise
     * the record is MarkedReturned and its book Restocked, with no check that
     * it was out: returning twice adds two copies. A record whose book row is
     * missing dereferences null and nothing is saved.
     */
    method ReturnBook(id: int, now: Timestamp) returns (r: Result<Row<BorrowingProcess>>)
      requires Valid()
      modifies books.repo, repo
      ensures Valid()
      ensures id !in old(repo.rows) ==>
        && r == Err(NotFound(BookNotFound))
        && books.repo.rows == old(books.repo.rows) && repo.rows == old(repo.rows)
      ensures id in old(repo.rows) && old(repo.rows)[id].bookId !in old(books.repo.rows) ==>
        && r == Err(NullReference)
        && books.repo.rows == old(books.repo.rows) && repo.rows == old(repo.rows)
      ensures id in old(repo.rows) && old(repo.rows)[id].bookId in old(books.repo.rows) ==>
        var bookId := old(repo.rows)[id].bookId;
        && r == Ok(Row(id, MarkedReturned(old(repo.rows)[id], now)))
        && repo.rows == old(repo.rows)[id := r.value.entity]
        && books.repo.rows == old(books.repo.rows)[bookId := Restocked(old(books.repo.rows)[bookId])]
      ensures UniqueIsbns(old(books.repo.rows)) ==> UniqueIsbns(books.repo.rows)
    {
      var found := repo.FindOneOrThrow((k, bp) => k == id);
      if found.Err? {
        return Err(found.error);
      }
      var bp := found.value.entity;
      // `borrowingProcess.book` is the eagerly joined book row
      if bp.bookId !in books.repo.rows {
        return Err(NullReference);
      }
      var returned := MarkedReturned(bp, now);
      var book := Restocked(books.repo.rows[bp.bookId]);
      AssignWholeBook(old(books.repo.rows)[bp.bookId], book);
      var _ := books.Update(bp.bookId, WholeBook(book));
      if UniqueIsbns(old(books.repo.rows)) {
        SameKeyKeepsUniqueBy(old(books.repo.rows), IsbnOf, bp.bookId, book);
      }
      var saved := repo.SaveOne(Some(id), returned);
      r := Ok(saved);
    }

    /**
     * `update(id, dto)`: NotFound for an unknown id; otherwise the patch is
     * merged into that record. No book, and so no quantity, is touched.
     */
    method Update(id: int, patch: BorrowingPatch) returns (r: Result<Row<BorrowingProcess>>)
      requires Valid()
      modifies repo
      ensures Valid()
      ensures id !in old(repo.rows) ==> r == Err(NotFound(BookNotFound)) && repo.rows == old(repo.rows)
      ensures id in old(repo.rows) ==>
        && r == Ok(Row(id, AssignBorrowing(old(repo.rows)[id], patch)))
        && repo.rows == old(repo.rows)[id := r.value.entity]
      ensures books.repo.rows == old(books.repo.rows)
    {
      r := repo.FindOneAndUpdate((k, bp) => k == id, patch, AssignBorrowing);
    }

    /** `remove(id)`: deletes that record only. */
    method Remove(id: int)
      requires Valid()
      modifies repo
      ensures Valid()
      ensures repo.rows == old(repo.rows) - {id}
      ensures books.repo.rows == old(books.repo.rows)
    {
      repo.Delete(id);
    }

    /**
     * `exportLastMonthToCSV()` at `now`, given the rows its window query
     * returned (`listing`): the header, then one record per loan of the table
     * borrowed in now's calendar month, each exactly once, newest first.
     */
    method ExportLastMonthToCsv(now: Timestamp, listing: seq<Row<BorrowingProcess>>) returns (csv: Csv)
      requires Valid() && 1 <= now.month <= 12 && IsMonthListing(repo.rows, now, listing)
      ensures csv == ExportCsv(listing, users.repo.rows, books.repo.rows, now)
      ensures csv.header == Header && |csv.records| == |listing|
      ensures forall id :: id in repo.rows ==>
        ((exists i :: 0 <= i < |listing| && csv.records[i][0] == Number(id))
          <==> repo.rows[id].borrowedAt.year == now.year && repo.rows[id].borrowedAt.month == now.month)
      ensures forall i, j :: 0 <= i < j < |listing| ==> csv.records[i][0] != csv.records[j][0]
      ensures forall i :: 0 <= i < |listing| ==> csv.records[i][6] == Time(listing[i].entity.borrowedAt)
      ensures forall i, j :: 0 <= i < j < |listing| ==>
        NotAfter(listing[j].entity.borrowedAt, listing[i].entity.borrowedAt)
    {
      csv := ExportCsv(listing, users.repo.rows, books.repo.rows, now);
      ExportCoversCurrentMonth(repo.rows, users.repo.rows, books.repo.rows, now, listing);
    }
  }
}
