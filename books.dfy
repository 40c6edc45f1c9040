/** BooksService: the catalog, whose one rule is that no two books share an ISBN. */
module Books {
  import opened Results
  import opened Entities
  import opened Repositories

  const BookNotFound := "Book not found"
  const BookExists := "Book already exists"

  /** The catalog's unique column. */
  function IsbnOf(b: Book): int
  {
    b.isbn
  }

  /** No two rows of the books table carry the same ISBN. */
  ghost predicate UniqueIsbns(books: map<int, Book>)
  {
    UniqueBy(books, IsbnOf)
  }

  predicate IsbnTaken(books: map<int, Book>, isbn: int)
  {
    KeyTaken(books, IsbnOf, isbn)
  }

  class BooksService {
    const repo: Repository<Book>

    ghost predicate Valid()
      reads repo
    {
      repo.Valid() && repo.notFoundMsg == BookNotFound
    }

    constructor ()
      ensures Valid() && fresh(repo) && repo.rows == map[]
    {
      repo := new Repository(BookNotFound);
    }

    /**
     * `create(dto)`: BadRequest("Book already exists") when a stored book has
     * the ISBN, leaving the table as it was; otherwise exactly one new row
     * carrying the DTO's fields. The DTO validator lets only a positive
     * available_quantity through.
     */
    method Create(dto: Book) returns (r: Result<Row<Book>>)
      requires Valid()
      requires dto.availableQuantity > 0
      modifies repo
      ensures Valid()
      ensures IsbnTaken(old(repo.rows), dto.isbn) ==>
        r == Err(BadRequest(BookExists)) && repo.rows == old(repo.rows)
      ensures !IsbnTaken(old(repo.rows), dto.isbn) ==>
        && r.Ok? && r.value.entity == dto && r.value.id !in old(repo.rows)
        && repo.rows == old(repo.rows)[r.value.id := dto]
      ensures UniqueIsbns(old(repo.rows)) ==> UniqueIsbns(repo.rows)
    {
      var existing := repo.FindOne((k, b: Book) => b.isbn == dto.isbn);
      if existing.Some? {
        return Err(BadRequest(BookExists));
      }
      var newBook := repo.Create(dto);
      var saved := repo.SaveOne(None, newBook);
      if UniqueIsbns(old(repo.rows)) {
        InsertKeepsUniqueBy(old(repo.rows), IsbnOf, saved.id, dto);
      }
      r := Ok(saved);
    }

    /** `findOneById(id)`: the stored book, or NotFound("Book not found"). */
    method FindOneById(id: int) returns (r: Result<Row<Book>>)
      requires Valid()
      ensures id in repo.rows ==> r == Ok(Row(id, repo.rows[id]))
      ensures id !in repo.rows ==> r == Err(NotFound(BookNotFound))
    {
      r := repo.FindOneOrThrow((k, b) => k == id);
    }

    /**
     * `update(id, dto)`: NotFound for an unknown id; otherwise only the keys
     * of the patch change, in that row only. No ISBN check is made, so the
     * catalog stays duplicate-free exactly when the patch carries no ISBN or
     * one no other book has.
     */
    method Update(id: int, patch: BookPatch) returns (r: Result<Row<Book>>)
      requires Valid()
      modifies repo
      ensures Valid()
      ensures id !in old(repo.rows) ==> r == Err(NotFound(BookNotFound)) && repo.rows == old(repo.rows)
      ensures id in old(repo.rows) ==>
        && r == Ok(Row(id, AssignBook(old(repo.rows)[id], patch)))
        && repo.rows == old(repo.rows)[id := r.value.entity]
      ensures UniqueIsbns(old(repo.rows)) && r.Ok? ==>
        (UniqueIsbns(repo.rows) <==> patch.isbn.None? || !IsbnTaken(old(repo.rows) - {id}, patch.isbn.value))
    {
      r := repo.FindOneAndUpdate((k, b) => k == id, patch, AssignBook);
      if r.Ok? && UniqueIsbns(old(repo.rows)) {
        UpdateKeepsUniqueBy(old(repo.rows), IsbnOf, id, r.value.entity);
        if patch.isbn.None? {
          SameKeyKeepsUniqueBy(old(repo.rows), IsbnOf, id, r.value.entity);
        }
      }
    }
  }
}
