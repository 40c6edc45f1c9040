/**
 * The three tables' rows and the partial updates applied to them.
 *
 * Every entity extends AbstractEntity, whose generated `id` is the key of its
 * table; a row here holds the remaining columns and the id is the map key
 * (see Repositories.Row). The audit columns created_at, updated_at and
 * deleted_at are not modelled.
 */
module Entities {
  import opened Results
  import opened Timestamps

  /** The roles of `src/common/enums` that the controllers name. */
  datatype UserType = Admin | Borrower

  datatype User = User(name: string, email: string, password: string, userType: UserType)

  datatype Book = Book(
    title: string,
    author: string,
    description: string,
    isbn: int,
    shelfLocation: string,
    availableQuantity: int)

  /** A loan: the borrower and book relations are held by the ids they join on. */
  datatype BorrowingProcess = BorrowingProcess(
    borrowerId: int,
    bookId: int,
    borrowedAt: Timestamp,
    dueDate: Timestamp,
    returnedAt: Option<Timestamp>,
    isReturned: bool)

  /** A `Partial<User>` (UpdateUserDto): each key present or absent. */
  datatype UserPatch = UserPatch(
    name: Option<string>,
    email: Option<string>,
    password: Option<string>,
    userType: Option<UserType>)

  /** A `Partial<Book>` (UpdateBookDto, or a whole Book passed as one). */
  datatype BookPatch = BookPatch(
    title: Option<string>,
    author: Option<string>,
    description: Option<string>,
    isbn: Option<int>,
    shelfLocation: Option<string>,
    availableQuantity: Option<int>)

  /**
   * UpdateBorrowingProcessDto: optional user_id, book_id and due_date. The
   * entity has no `user_id` or `book_id` property (its relations are the
   * properties `borrower` and `book`; `book_id` is only the join column's
   * name), so those two keys name no property of the entity.
   */
  datatype BorrowingPatch = BorrowingPatch(
    userId: Option<int>,
    bookId: Option<int>,
    dueDate: Option<Timestamp>)

  /** `Object.assign(user, patch)`: every key the patch carries overwrites, the rest stay. */
  function AssignUser(u: User, p: UserPatch): (r: User)
    ensures p.name.Some? ==> r.name == p.name.value
    ensures p.name.None? ==> r.name == u.name
    ensures p.email.Some? ==> r.email == p.email.value
    ensures p.email.None? ==> r.email == u.email
    ensures p.password.Some? ==> r.password == p.password.value
    ensures p.password.None? ==> r.password == u.password
    ensures p.userType.Some? ==> r.userType == p.userType.value
    ensures p.userType.None? ==> r.userType == u.userType
  {
    User(Override(p.name, u.name), Override(p.email, u.email),
         Override(p.password, u.password), Override(p.userType, u.userType))
  }

  /** `Object.assign(book, patch)`: every key the patch carries overwrites, the rest stay. */
  function AssignBook(b: Book, p: BookPatch): (r: Book)
    ensures p.title.Some? ==> r.title == p.title.value
    ensures p.title.None? ==> r.title == b.title
    ensures p.author.Some? ==> r.author == p.author.value
    ensures p.author.None? ==> r.author == b.author
    ensures p.description.Some? ==> r.description == p.description.value
    ensures p.description.None? ==> r.description == b.description
    ensures p.isbn.Some? ==> r.isbn == p.isbn.value
    ensures p.isbn.None? ==> r.isbn == b.isbn
    ensures p.shelfLocation.Some? ==> r.shelfLocation == p.shelfLocation.value
    ensures p.shelfLocation.None? ==> r.shelfLocation == b.shelfLocation
    ensures p.availableQuantity.Some? ==> r.availableQuantity == p.availableQuantity.value
    ensures p.availableQuantity.None? ==> r.availableQuantity == b.availableQuantity
  {
    Book(Override(p.title, b.title), Override(p.author, b.author),
         Override(p.description, b.description), Override(p.isbn, b.isbn),
         Override(p.shelfLocation, b.shelfLocation),
         Override(p.availableQuantity, b.availableQuantity))
  }

  /**
   * `Object.assign(borrowingProcess, dto)` followed by save(): due_date is
   * written, while user_id and book_id land on keys that are no property of
   * the entity, which save() ignores, so the borrower, the book and the
   * return state never change.
   */
  function AssignBorrowing(bp: BorrowingProcess, p: BorrowingPatch): (r: BorrowingProcess)
    ensures p.dueDate.Some? ==> r.dueDate == p.dueDate.value
    ensures p.dueDate.None? ==> r.dueDate == bp.dueDate
    ensures r.borrowerId == bp.borrowerId && r.bookId == bp.bookId
    ensures r.borrowedAt == bp.borrowedAt
    ensures r.returnedAt == bp.returnedAt && r.isReturned == bp.isReturned
  {
    bp.(dueDate := Override(p.dueDate, bp.dueDate))
  }

  const NoBookChange := BookPatch(None, None, None, None, None, None)

  /** A whole Book used as a patch, as the checkout and return paths pass it. */
  function WholeBook(b: Book): BookPatch
  {
    BookPatch(Some(b.title), Some(b.author), Some(b.description), Some(b.isbn),
              Some(b.shelfLocation), Some(b.availableQuantity))
  }

  /** A patch with no keys leaves the row as it is. */
  lemma AssignNothing(b: Book)
    ensures AssignBook(b, NoBookChange) == b
  {
  }

  /** A whole book as the patch replaces every column with that book's. */
  lemma AssignWholeBook(stored: Book, b: Book)
    ensures AssignBook(stored, WholeBook(b)) == b
  {
  }
}
