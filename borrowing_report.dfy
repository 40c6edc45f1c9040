/**
 * The pure part of the borrowing-process service: the status classifier,
 * the export's date window, and the mapping of loans to CSV records.
 * `now` is a parameter wherever the service reads the clock.
 */
module BorrowingReport {
  import opened Results
  import opened Timestamps
  import opened Entities
  import opened Repositories

  datatype Status = Returned | Overdue | Active

  /** `getBorrowingStatus(bp)` evaluated at `now`. */
  function StatusOf(bp: BorrowingProcess, now: Timestamp): (s: Status)
    ensures bp.isReturned ==> s == Returned
    ensures !bp.isReturned ==> (s == Overdue <==> Before(bp.dueDate, now))
    ensures s == Active <==> !bp.isReturned && NotAfter(now, bp.dueDate)
  {
    if bp.isReturned then Returned
    else if Before(bp.dueDate, now) then Overdue
    else Active
  }

  /** The status strings of `getBorrowingStatus`, one per status. */
  function StatusText(s: Status): (text: string)
    ensures text == "Returned" <==> s == Returned
    ensures text == "Overdue" <==> s == Overdue
    ensures text == "Active" <==> s == Active
  {
    match s
    case Returned => "Returned"
    case Overdue => "Overdue"
    case Active => "Active"
  }

  /** A loan falling due at this very instant is still active, not overdue. */
  lemma DueNowIsActive(bp: BorrowingProcess, now: Timestamp)
    requires !bp.isReturned && bp.dueDate == now
    ensures StatusOf(bp, now) == Active
  {
  }

  /** A returned loan reads "Returned" whatever its due date, however late. */
  lemma ReturnedIgnoresDueDate(bp: BorrowingProcess, now: Timestamp, due: Timestamp)
    requires bp.isReturned
    ensures StatusOf(bp.(dueDate := due), now) == StatusOf(bp, now) == Returned
  {
  }

  /** Once overdue, a loan stays overdue while it is not returned. */
  lemma OverdueStaysOverdue(bp: BorrowingProcess, now: Timestamp, later: Timestamp)
    requires StatusOf(bp, now) == Overdue && !Before(later, now)
    ensures StatusOf(bp, later) == Overdue
  {
  }

  // ----- the export window -----

  /**
   * `getLastMonthBorrowingProcesses`'s range, from `new Date(y, m, 1)` to
   * `new Date(y, m + 1, 0, 23, 59, 59)` with `m = now.getMonth()`. Day 0 of
   * the next month is the last day of this one, so the window runs from day 1
   * 00:00:00 to the month's last day 23:59:59, December included.
   */
  function MonthWindow(now: Timestamp): (w: (Timestamp, Timestamp))
    requires 1 <= now.month <= 12
    ensures w.0 == Timestamp(now.year, now.month, 1, 0, 0, 0)
    ensures w.1 == Timestamp(now.year, now.month, DaysInMonth(now.year, now.month), 23, 59, 59)
  {
    var monthIndex := now.month - 1;
    (MakeDate(now.year, monthIndex, 1, 0, 0, 0), MakeDate(now.year, monthIndex + 1, 0, 23, 59, 59))
  }

  /** TypeORM's `Between(start, end)`: both ends included. */
  predicate InMonthWindow(t: Timestamp, now: Timestamp)
    requires 1 <= now.month <= 12
  {
    var (start, end) := MonthWindow(now);
    NotAfter(start, t) && NotAfter(t, end)
  }

  /**
   * Despite its name the export covers the CURRENT calendar month: a valid
   * instant is in the window exactly when it lies in the year and month of `now`.
   */
  lemma InWindowIffSameMonth(t: Timestamp, now: Timestamp)
    requires Valid(t) && 1 <= now.month <= 12
    ensures InMonthWindow(t, now) <==> t.year == now.year && t.month == now.month
  {
  }

  // ----- the CSV export -----

  /** The header titles, in the column order of the export. */
  const Header: seq<string> := [
    "ID", "Borrower Name", "Borrower Email", "Book Title", "Book Author",
    "Book ISBN", "Borrowed At", "Due Date", "Returned At", "Returned Status"]

  /** A value handed to the CSV writer; its text rendering is the writer's. */
  datatype Cell = Text(text: string) | Number(n: int) | Time(t: Timestamp)

  const NotAvailable := Text("N/A")

  /** `s || 'N/A'`: an empty string is falsy and shows as N/A; any other string shows as itself. */
  function TextOrNA(s: string): (c: Cell)
    ensures s == "" ==> c == NotAvailable
    ensures s != "" ==> c == Text(s)
  {
    if s == "" then NotAvailable else Text(s)
  }

  /** `n || 'N/A'`: the number 0 is falsy and is the only one shown as N/A. */
  function NumberOrNA(n: int): (c: Cell)
    ensures c == NotAvailable <==> n == 0
    ensures n != 0 ==> c == Number(n)
  {
    if n == 0 then NotAvailable else Number(n)
  }

  /**
   * The record built for one loan. The borrower and book are the joined rows,
   * looked up by the loan's ids; a missing one gives "N/A" in each of its columns.
   */
  function CsvRecord(row: Row<BorrowingProcess>, users: map<int, User>, books: map<int, Book>, now: Timestamp)
    : (rec: seq<Cell>)
    ensures |rec| == |Header|
  {
    var bp := row.entity;
    var borrower := if bp.borrowerId in users then Some(users[bp.borrowerId]) else None;
    var book := if bp.bookId in books then Some(books[bp.bookId]) else None;
    [ Number(row.id),
      if borrower.Some? then TextOrNA(borrower.value.name) else NotAvailable,
      if borrower.Some? then TextOrNA(borrower.value.email) else NotAvailable,
      if book.Some? then TextOrNA(book.value.title) else NotAvailable,
      if book.Some? then TextOrNA(book.value.author) else NotAvailable,
      if book.Some? then NumberOrNA(book.value.isbn) else NotAvailable,
      Time(bp.borrowedAt),
      Time(bp.dueDate),
      if bp.returnedAt.Some? then Time(bp.returnedAt.value) else Text("Not Returned"),
      Text(StatusText(StatusOf(bp, now))) ]
  }

  /** Column 0 is the loan's id; columns 6 and 7 its dates; column 9 its status at `now`. */
  lemma RecordColumns(row: Row<BorrowingProcess>, users: map<int, User>, books: map<int, Book>, now: Timestamp)
    ensures CsvRecord(row, users, books, now)[0] == Number(row.id)
    ensures CsvRecord(row, users, books, now)[6] == Time(row.entity.borrowedAt)
    ensures CsvRecord(row, users, books, now)[7] == Time(row.entity.dueDate)
    ensures CsvRecord(row, users, books, now)[9] == Text(StatusText(StatusOf(row.entity, now)))
  {
  }

  /** A loan whose borrower is not in the users table shows "N/A" as name and email. */
  lemma MissingBorrowerIsNA(row: Row<BorrowingProcess>, users: map<int, User>, books: map<int, Book>, now: Timestamp)
    requires row.entity.borrowerId !in users
    ensures CsvRecord(row, users, books, now)[1..3] == [NotAvailable, NotAvailable]
  {
  }

  /** A loan whose book is not in the books table shows "N/A" as title, author and ISBN. */
  lemma MissingBookIsNA(row: Row<BorrowingProcess>, users: map<int, User>, books: map<int, Book>, now: Timestamp)
    requires row.entity.bookId !in books
    ensures CsvRecord(row, users, books, now)[3..6] == [NotAvailable, NotAvailable, NotAvailable]
  {
  }

  /**
   * A loan whose borrower and book rows are present shows their fields, each
   * through `||` (so an empty name or title, or ISBN 0, still shows N/A), and
   * a loan with a return date shows that date.
   */
  lemma PresentRowsShowFields(row: Row<BorrowingProcess>, users: map<int, User>, books: map<int, Book>, now: Timestamp)
    ensures row.entity.borrowerId in users ==>
      var u := users[row.entity.borrowerId];
      CsvRecord(row, users, books, now)[1..3] == [TextOrNA(u.name), TextOrNA(u.email)]
    ensures row.entity.bookId in books ==>
      var b := books[row.entity.bookId];
      CsvRecord(row, users, books, now)[3..6] == [TextOrNA(b.title), TextOrNA(b.author), NumberOrNA(b.isbn)]
    ensures row.entity.returnedAt.Some? ==>
      CsvRecord(row, users, books, now)[8] == Time(row.entity.returnedAt.value)
  {
  }

  /** A loan without a return date shows "Not Returned" in the Returned At column. */
  lemma UnreturnedShowsNotReturned(row: Row<BorrowingProcess>, users: map<int, User>, books: map<int, Book>, now: Timestamp)
    requires row.entity.returnedAt.None?
    ensures CsvRecord(row, users, books, now)[8] == Text("Not Returned")
  {
  }

  /** The header string and the records, before csv-writer renders them as text. */
  datatype Csv = Csv(header: seq<string>, records: seq<seq<Cell>>)

  /**
   * `exportLastMonthToCSV` over the rows the query returned: the header, then
   * one ten-column record per row, in query order, whose ID cell is that row's.
   */
  function ExportCsv(listing: seq<Row<BorrowingProcess>>, users: map<int, User>, books: map<int, Book>, now: Timestamp)
    : (csv: Csv)
    ensures csv.header == Header && |csv.records| == |listing|
    ensures forall i :: 0 <= i < |listing| ==>
      |csv.records[i]| == |Header| && csv.records[i][0] == Number(listing[i].id)
  {
    Csv(Header, seq(|listing|, i requires 0 <= i < |listing| => CsvRecord(listing[i], users, books, now)))
  }

  /**
   * What the query of `getLastMonthBorrowingProcesses` returns from the
   * borrowings table: each row whose borrowed_at lies in the window, exactly
   * once, ordered by borrowed_at descending.
   */
  ghost predicate IsMonthListing(table: map<int, BorrowingProcess>, now: Timestamp, listing: seq<Row<BorrowingProcess>>)
    requires 1 <= now.month <= 12
  {
    && (forall i :: 0 <= i < |listing| ==>
          listing[i].id in table && table[listing[i].id] == listing[i].entity
          && InMonthWindow(listing[i].entity.borrowedAt, now))
    && (forall id :: id in table && InMonthWindow(table[id].borrowedAt, now) ==>
          exists i :: 0 <= i < |listing| && listing[i].id == id)
    && (forall i, j :: 0 <= i < j < |listing| ==> listing[i].id != listing[j].id)
    && (forall i, j :: 0 <= i < j < |listing| ==>
          NotAfter(listing[j].entity.borrowedAt, listing[i].entity.borrowedAt))
  }

  /**
   * The export has the fixed header and one record per loan borrowed in the
   * current month (by its ID column, each exactly once, none from another
   * month), newest borrowed_at first.
   */
  lemma {:induction false} ExportCoversCurrentMonth(
    table: map<int, BorrowingProcess>, users: map<int, User>, books: map<int, Book>,
    now: Timestamp, listing: seq<Row<BorrowingProcess>>)
    requires 1 <= now.month <= 12
    requires forall id :: id in table ==> Valid(table[id].borrowedAt)
    requires IsMonthListing(table, now, listing)
    ensures ExportCsv(listing, users, books, now).header == Header
    ensures |ExportCsv(listing, users, books, now).records| == |listing|
    ensures forall id :: id in table ==>
      ((exists i :: 0 <= i < |listing| && ExportCsv(listing, users, books, now).records[i][0] == Number(id))
        <==> table[id].borrowedAt.year == now.year && table[id].borrowedAt.month == now.month)
    ensures forall i, j :: 0 <= i < j < |listing| ==>
      ExportCsv(listing, users, books, now).records[i][0] != ExportCsv(listing, users, books, now).records[j][0]
    ensures forall i :: 0 <= i < |listing| ==>
      ExportCsv(listing, users, books, now).records[i][6] == Time(listing[i].entity.borrowedAt)
    ensures forall i, j :: 0 <= i < j < |listing| ==>
      NotAfter(listing[j].entity.borrowedAt, listing[i].entity.borrowedAt)
  {
    var records := ExportCsv(listing, users, books, now).records;
    forall i | 0 <= i < |listing|
      ensures records[i][0] == Number(listing[i].id)
      ensures records[i][6] == Time(listing[i].entity.borrowedAt)
    {
      RecordColumns(listing[i], users, books, now);
    }
    forall id | id in table
      ensures (exists i :: 0 <= i < |listing| && records[i][0] == Number(id))
        <==> table[id].borrowedAt.year == now.year && table[id].borrowedAt.month == now.month
    {
      InWindowIffSameMonth(table[id].borrowedAt, now);
      if exists i :: 0 <= i < |listing| && records[i][0] == Number(id) {
        var i :| 0 <= i < |listing| && records[i][0] == Number(id);
        assert listing[i].id == id;
      }
      if InMonthWindow(table[id].borrowedAt, now) {
        var i :| 0 <= i < |listing| && listing[i].id == id;
        assert records[i][0] == Number(id);
      }
    }
  }
}
