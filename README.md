# Library management: inventory and borrowing rules

A Dafny model of the core of a NestJS library backend. It has three tables: users, books, and borrowing processes (loans). It covers the generic repository every service sits on, and the catalog's rule that no two books share an ISBN. It covers the checkout/return workflow, which moves a book's `available_quantity` by one, and the loan status classifier. It covers the CSV export's month window and record layout, signup/login/self-update with the crypto left abstract, and the JWT guard's access decision.

Layout, one module per source component:

- `results.dfy` (`Results`): `Option`, `Result`, and the `Error`s the services throw (NotFound, BadRequest, Unauthorized, and the TypeError of a null relation). It also has `Override`, which applies one key of `Object.assign`.
- `timestamps.dfy` (`Timestamps`): calendar instants that stand in for `Date`. `Before` is `<` on dates. `MakeDate` is the `Date` constructor, including its month carry and day 0.
- `entities.dfy` (`Entities`): `User`, `Book`, `BorrowingProcess`, their partial updates, and the `Assign*` merges.
- `repository.dfy` (`Repositories`): `Repository<E>`, a class over `rows: map<int, E>` with an auto-increment `nextId`, and `UniqueBy`, a unique column stated once for any table, with its insert and update lemmas.
- `users.dfy`, `books.dfy`, `borrowing.dfy`, `auth.dfy`: one service class each. Each holds its repository, and the borrowing service also holds the users and books services it is built with.
- `borrowing_report.dfy` (`BorrowingReport`): the pure part of the borrowing service, which covers status, window and CSV records.
- `guard.dfy` (`AccessGuard`): the guard's decision as pure functions.
- `scenario.dfy` (`Scenario`): a client that checks out the only copy of a book twice and returns it twice, using only the services' contracts.

Modelling choices:

- A table is a map from generated id to row. Rows do not repeat their id. A lookup returns `Row(id, entity)`.
- `where` options are predicates `(id, row) -> bool`. `findOne` yields some matching row, because the database's choice among several is not visible.
- Time is a parameter `now` wherever the source calls `new Date()`. The status of each record in the export is taken at the same `now` as the window.
- `bcrypt.hash`, `bcrypt.compare` and `jwtService.sign` are functions the `AuthService` is constructed with. The salt from `genSalt` is a parameter of `Signup`.
- Checkout and return write a book back by passing the whole loaded book as the update (`book as UpdateBookDto`). `WholeBook` is that patch, and `AssignWholeBook` shows it replaces the row.
- `returnBook` reads `borrowingProcess.book`, the eagerly joined row. If the book row is missing, the increment dereferences null. The model returns `Err(NullReference)` and changes nothing.

Behaviour worth noting:

- Tokens from `validateUser` expire after `60 * 60 * 24` seconds, one day (`src/auth/auth.service.ts:75`).
- User removal is TypeORM's `delete`, a hard delete of the row.
- The borrowing `update` writes only `due_date`. The global validation pipe whitelists the DTO's keys (`user_id`, `book_id`, `due_date`). Of these, only `due_date` names a property of the entity (`book_id` is merely the join column's name), so `AssignBorrowing` changes only the due date and can never flip `isReturned`.
- The "last month" export covers the current calendar month (`InWindowIffSameMonth`).
- Only `BooksService.create` and `AuthService.signup` check for a taken ISBN or email. `BooksService.update`, `UsersService.update`, `UsersService.saveOne` and `AuthService.update` write whatever they are given. Their contracts state exactly when uniqueness survives (`UpdateKeepsUniqueBy`): a patch carrying another row's ISBN or email leaves two rows sharing it.

Quirks kept as the code has them:

- Checkout at zero stock still records a loan.
- Return has no guard against a second return, and two returns add two copies.
- The borrowings repository's not-found message is `'Book not found'`.
- `@Roles()` with an empty list admits no one.
- An empty name or title, or an ISBN of 0, shows as `N/A` in the CSV, because `||` treats them as falsy.

## Model

| member | source | states |
|---|---|---|
| Repositories.Repository.constructor | src/common/abstract/abstract.repository.entity.ts:6-9 | a repository starts with an empty table, ids from 1, and the not-found message it is given |
| Repositories.Repository.FindAll | src/common/abstract/abstract.repository.entity.ts:15-19 | without options every row of the table is returned, with its stored values |
| Repositories.Repository.FindOne | src/common/abstract/abstract.repository.entity.ts:21-23 | null exactly when no row matches the query; otherwise a stored row that matches it |
| Repositories.Repository.FindOneOrThrow | src/common/abstract/abstract.repository.entity.ts:25-29 | NotFound with the repository's own message exactly when no row matches; otherwise a stored matching row |
| Repositories.Repository.Create | src/common/abstract/abstract.repository.entity.ts:30-32 | builds the entity and leaves the table and the id counter as they were |
| Repositories.Repository.SaveOne | src/common/abstract/abstract.repository.entity.ts:34-36 | an entity without id is stored under a fresh id not in the table; one with an id replaces that row; no other row changes |
| Repositories.Repository.FindOneAndUpdate | src/common/abstract/abstract.repository.entity.ts:41-49 | no match: NotFound and the table unchanged; a match: that row becomes `assign(row, update)` and no other row changes |
| Repositories.Repository.Delete | src/common/abstract/abstract.repository.entity.ts:51-53 | removes the row with that id, keeps every other row, and is no error for an absent id |
| Repositories.InsertKeepsUniqueBy | src/books/books.service.ts:16-22 | inserting a row under a fresh id keeps a column pairwise distinct if and only if its value was not yet taken |
| Repositories.UpdateKeepsUniqueBy | src/common/abstract/abstract.repository.entity.ts:41-49 | rewriting one row keeps a column pairwise distinct if and only if no other row already has the new value |
| Repositories.SameKeyKeepsUniqueBy | src/borrowing-process/borrowing-process.service.ts:36 | rewriting one row without changing its value in the column keeps the column pairwise distinct |
| Entities.AssignUser | src/common/abstract/abstract.repository.entity.ts:47 | each key present in the user patch overwrites that field; every absent key leaves its field as it was |
| Entities.AssignBook | src/common/abstract/abstract.repository.entity.ts:47 | each key present in the book patch overwrites that field; every absent key leaves its field as it was |
| Entities.AssignBorrowing | src/borrowing-process/dto/update-borrowing-process.dto.ts:1-4 | a present due_date is written; borrower, book, borrowed_at and the return state never change, because user_id and book_id name no property of the entity |
| Entities.AssignNothing | src/common/abstract/abstract.repository.entity.ts:47 | an empty patch leaves the book unchanged |
| Entities.AssignWholeBook | src/borrowing-process/borrowing-process.service.ts:36 | passing a whole book as the update makes the stored row equal to that book |
| Users.UsersService.constructor | src/users/repositories/user.repository.ts:6-12 | the users repository starts empty and carries the message 'User not found' |
| Users.UsersService.Create | src/users/users.service.ts:15-17 | returns the user built from the DTO without storing it or checking its email |
| Users.UsersService.FindOne | src/users/users.service.ts:23-25 | null exactly when no user matches; otherwise a stored matching user |
| Users.UsersService.FindOneById | src/users/users.service.ts:27-29 | the stored user for a present id, NotFound('User not found') for an absent one |
| Users.UsersService.Update | src/users/users.service.ts:31-37 | absent id: NotFound('User not found') and no change; present id: only that row changes, by merging the patch; with unique emails before, they stay unique if and only if the patch has no email or one no other user has |
| Users.UsersService.Remove | src/users/users.service.ts:39-41 | the row with that id is deleted and every other row kept |
| Users.UsersService.SaveOne | src/users/users.service.ts:43-45 | the given user is stored, under a fresh id when it has none, and nothing else changes; a new user keeps unique emails unique if and only if its email is not taken |
| Books.BooksService.constructor | src/books/repositories/book.repository.ts:6-12 | the books repository starts empty and carries the message 'Book not found' |
| Books.BooksService.Create | src/books/books.service.ts:13-23 | a taken ISBN gives BadRequest('Book already exists') and no change; otherwise exactly one new row with the DTO's fields is stored and returned; unique ISBNs stay unique either way |
| Books.BooksService.FindOneById | src/books/books.service.ts:29-31 | the stored book for a present id, NotFound('Book not found') for an absent one |
| Books.BooksService.Update | src/books/books.service.ts:33-35 | absent id: NotFound and no change; present id: only the patched fields of that row change; with unique ISBNs before, they stay unique if and only if the patch has no ISBN or one no other book has |
| BorrowingReport.StatusOf | src/borrowing-process/borrowing-process.service.ts:126-137 | Returned whenever isReturned holds; otherwise Overdue exactly when due_date is strictly before now, Active exactly when it is not |
| BorrowingReport.StatusText | src/borrowing-process/borrowing-process.service.ts:127-136 | Returned, Overdue and Active are rendered as 'Returned', 'Overdue' and 'Active', each string naming exactly one status |
| BorrowingReport.MonthWindow | src/borrowing-process/borrowing-process.service.ts:77-81 | the window runs from day 1 00:00:00 to the last day 23:59:59 of the month of now, December included |
| BorrowingReport.DueNowIsActive | src/borrowing-process/borrowing-process.service.ts:132 | an unreturned loan due at exactly now is Active |
| BorrowingReport.ReturnedIgnoresDueDate | src/borrowing-process/borrowing-process.service.ts:127-129 | a returned loan is Returned whatever its due date |
| BorrowingReport.OverdueStaysOverdue | src/borrowing-process/borrowing-process.service.ts:131-134 | an unreturned loan overdue at one instant is overdue at every later instant |
| BorrowingReport.InWindowIffSameMonth | src/borrowing-process/borrowing-process.service.ts:79-85 | an instant lies in the Between range exactly when it has the year and month of now: the current month, not the last |
| BorrowingReport.CsvRecord | src/borrowing-process/borrowing-process.service.ts:110-121 | every record has exactly as many cells as the header has columns |
| BorrowingReport.RecordColumns | src/borrowing-process/borrowing-process.service.ts:111-120 | a record's ID, Borrowed At, Due Date and Returned Status cells are the loan's id, dates and status at now |
| BorrowingReport.MissingBorrowerIsNA | src/borrowing-process/borrowing-process.service.ts:112-113 | a loan whose borrower row is missing shows N/A as borrower name and email |
| BorrowingReport.MissingBookIsNA | src/borrowing-process/borrowing-process.service.ts:114-116 | a loan whose book row is missing shows N/A as title, author and ISBN |
| BorrowingReport.UnreturnedShowsNotReturned | src/borrowing-process/borrowing-process.service.ts:119 | a loan without returned_at shows 'Not Returned' |
| BorrowingReport.TextOrNA | src/borrowing-process/borrowing-process.service.ts:112-115 | an empty string shows as N/A, any other string as itself |
| BorrowingReport.NumberOrNA | src/borrowing-process/borrowing-process.service.ts:116 | a number shows as N/A exactly when it is 0, otherwise as itself |
| BorrowingReport.PresentRowsShowFields | src/borrowing-process/borrowing-process.service.ts:112-119 | a present borrower shows name and email, a present book title, author and ISBN, each through `|| 'N/A'`; a set returned_at shows that date |
| BorrowingReport.ExportCsv | src/borrowing-process/borrowing-process.service.ts:92-122 | the header, then one ten-column record per listed row, in listing order, whose ID cell is that row's id |
| BorrowingReport.ExportCoversCurrentMonth | src/borrowing-process/borrowing-process.service.ts:83-122 | the export has the fixed header and one record per loan borrowed in the current month, each exactly once and none from another month, in borrowed_at-descending order |
| Borrowing.CheckedOut | src/borrowing-process/borrowing-process.service.ts:33-38 | above 0 the quantity drops by exactly one, at 0 or below the book is unchanged, a non-negative quantity stays non-negative, and no other field changes |
| Borrowing.Restocked | src/borrowing-process/borrowing-process.service.ts:63 | the quantity grows by exactly one, with no ceiling, and no other field changes |
| Borrowing.NewLoan | src/borrowing-process/borrowing-process.service.ts:39-43 | the new record has the given borrower, book and due date, borrowed_at now, no returned_at and isReturned false |
| Borrowing.MarkedReturned | src/borrowing-process/borrowing-process.service.ts:61-62 | the record is returned at now whatever its earlier state, and its borrower, book and dates are kept |
| Borrowing.StockStaysInBounds | src/borrowing-process/borrowing-process.service.ts:33-63 | across any run of checkouts and returns a non-negative quantity stays between 0 and its start plus the number of returns |
| Borrowing.ReturnsAccumulate | src/borrowing-process/borrowing-process.service.ts:58-67 | n returns add exactly n copies: return is not idempotent |
| Borrowing.ZeroStockCheckoutThenReturn | src/borrowing-process/borrowing-process.service.ts:33-63 | one copy, two checkouts: 0 then still 0; a return then makes 1 although a loan is still open |
| Borrowing.BorrowingProcessService.constructor | src/borrowing-process/repositories/borrowing-process.repository.ts:6-12 | the borrowings repository starts empty and carries the message 'Book not found' |
| Borrowing.BorrowingProcessService.Create | src/borrowing-process/borrowing-process.service.ts:25-48 | missing user: NotFound('User not found') and nothing changes, even when the book is missing too; missing book: NotFound('Book not found') and nothing changes; otherwise the book becomes CheckedOut and exactly one NewLoan row is added under a fresh id, borrowed at the (valid) current date |
| Borrowing.BorrowingProcessService.FindOne | src/borrowing-process/borrowing-process.service.ts:54-56 | the stored record for a present id, NotFound('Book not found') for an absent one |
| Borrowing.BorrowingProcessService.ReturnBook | src/borrowing-process/borrowing-process.service.ts:58-67 | missing id: NotFound('Book not found') and no book changes; otherwise the record becomes MarkedReturned and its book Restocked, already returned or not |
| Borrowing.BorrowingProcessService.Update | src/borrowing-process/borrowing-process.service.ts:69-71 | absent id: NotFound and no change; otherwise the patch is merged into that record only, and the books table is untouched |
| Borrowing.BorrowingProcessService.Remove | src/borrowing-process/borrowing-process.service.ts:73-75 | deletes that record, keeps every other, and leaves the books table untouched |
| Borrowing.BorrowingProcessService.ExportLastMonthToCsv | src/borrowing-process/borrowing-process.service.ts:77-124 | for the service's own table: the header, and one record per loan borrowed in now's calendar month, each exactly once and none from another month, newest borrowed_at first |
| Auth.WithoutPassword | src/auth/auth.service.ts:27 | the returned user keeps id, name, email and type, and has no password |
| Auth.ExpiresIn | src/auth/auth.service.ts:75 | a truthy time is used as given, and a missing time or a time of 0 gives 86400 seconds |
| Auth.AuthService.CreateJwt | src/auth/auth.service.ts:72-77 | the payload is signed to expire after the given time, or after one day when the time is missing or 0 |
| Auth.AuthService.constructor | src/auth/auth.service.ts:12-14 | the service holds the users service and the hash, compare and sign functions it is given |
| Auth.AuthService.Signup | src/auth/auth.service.ts:16-29 | a taken email gives BadRequest('User already exists') and stores nothing; otherwise one new user with password hash(password, salt) is stored and returned without password; unique emails stay unique |
| Auth.AuthService.ValidateUser | src/auth/auth.service.ts:31-47 | an unknown email and a wrong password fail with the same Unauthorized('Invalid credentials'); success means a stored user with that email whose password compares true, returned without password, with a token over {id, userType} and a one-day expiry; with unique emails, success holds exactly when such a user exists |
| Auth.AuthService.Update | src/auth/auth.service.ts:57-61 | an absent id gives NotFound('User not found') and no change; otherwise that user's row is merged with the patch, as in the users service, and unique emails stay unique if and only if the patch has no email or one no other user has |
| AccessGuard.GetAllAndOverride | src/auth/guards/jwt-auth.guard.ts:15-18 | the handler's metadata if declared, else the class's |
| AccessGuard.IsPublic | src/auth/guards/jwt-auth.guard.ts:15-20 | a route is public exactly when the handler is marked public, or the handler has no flag and the class is marked public |
| AccessGuard.RequiredRoles | src/auth/guards/jwt-auth.guard.ts:45 | the handler's roles when declared, else the class's |
| AccessGuard.CheckRoles | src/auth/guards/jwt-auth.guard.ts:32-61 | no roles declared: allowed; roles but no user: refused; otherwise allowed exactly when the caller's userType is among the roles |
| AccessGuard.CanActivate | src/auth/guards/jwt-auth.guard.ts:14-30 | a public route is allowed; a failed authentication is refused; after a successful one the decision is the role check |
| AccessGuard.CanActivateIsPermitted | src/auth/guards/jwt-auth.guard.ts:14-61 | the guard allows a request exactly when the route is public, or the token is valid and no roles are declared at the nearest level or the caller's role is declared there |
| AccessGuard.HandlerRolesOverrideClass | src/auth/guards/jwt-auth.guard.ts:45 | roles declared on the handler decide whatever the class declares |
| AccessGuard.EmptyRolesAdmitNobody | src/auth/guards/jwt-auth.guard.ts:49-60 | a non-public route whose nearest roles list is empty refuses every authenticated caller |
| Timestamps.MakeDate | src/borrowing-process/borrowing-process.service.ts:80-81 | the Date constructor yields a valid calendar instant with the given time of day; for day 1 or later it is that day of the month index carried into the year (`year + monthIndex / 12`, month `monthIndex % 12 + 1`); for day 0 it is the last day of the month before that one |
| Timestamps.DaysInMonth | src/borrowing-process/borrowing-process.service.ts:81 | between 28 and 31 days, and 29 exactly for February of a leap year |

## Left out

- Pagination (`findAll(query)` in each service and the pagination configs) is left out. Filtering, sorting and paging happen inside nestjs-paginate, which is not part of this model.
- Controllers, HTTP envelopes, module wiring, configuration parsing and the request validation pipe are left out. Only the validators' effect on `BooksService.Create` (a positive `available_quantity`) and on the borrowing update's keys is used.
- bcrypt and JWT internals, the JWT and local passport strategies, and the secret are left out. They are foreign libraries and appear only as functions, plus an `authenticated` flag in the guard.
- CSV quoting and the text rendering of values are left out. csv-writer is foreign code, so the model stops at header titles and cells.
- Clock and time zone: `now` is a parameter and instants are whole seconds in local time. Milliseconds are not modelled: an instant at 23:59:59.5 of the month's last day falls outside the real window.
- Concurrency is left out: the check-then-insert of ISBNs and emails, the read-modify-write of quantities, and throttling. Each operation runs alone.
- Database constraints are left out: the unique indexes on ISBN and email, and the foreign keys. In the database the unique index rejects a write that `BooksService.update`, `UsersService.update`, `UsersService.saveOne` or `AuthService.update` makes with a taken ISBN or email; in the model that write goes through, and its contract says uniqueness is then lost. The foreign key behind `borrower_id` likewise makes the database refuse `UsersService.remove` for a user who still has loans; `Users.UsersService.Remove` deletes that user anyway, and this is the only way a loan's borrower row can go missing (`MissingBorrowerIsNA`).
- The date columns are left out as such: `borrowed_at`, `due_date` and `returned_at` are `date` columns, which keep only the calendar day. The model stores the full instant it is given (`NewLoan` keeps `now` to the second) and compares instants; the day truncation, and the ORM handing a `date` column back as text rather than as a `Date`, are not modelled. Were `due_date` read back as text, `due_date < now` would compare NaN and be false, so a stored loan would never show as Overdue; `StatusOf` instead compares the due date as a date.
- Repositories.Repository.SaveOne: an insert under an explicit id not yet in the table moves the model's id counter past that id. The application's Postgres sequence would not move; no service inserts under such an id.
- The audit columns `created_at`, `updated_at` and `deleted_at` are not modelled, so soft deletion is not either.
- `src/common/enums`, `UpdateUserDto`, `UpdateBookDto` and `CreateUserDto` are not part of this model. The roles are taken to be ADMIN and BORROWER, and the update DTOs to be partial versions of the create DTOs.
- Repositories.Repository.FindOne returns some matching row, not the first in the database's order, which is not visible.
- Borrowing.BorrowingProcessService.ExportLastMonthToCsv takes the rows of the window query as input. Their order and contents are what `IsMonthListing` states for a `Between`/`ORDER BY borrowed_at DESC` query, and `ExportCoversCurrentMonth` draws the consequences.
- `console.log` calls are left out.
