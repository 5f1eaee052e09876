/**
 * The book catalog service (`BookService` and its implementation
 * `BookServiceImpl`): the business rules between the HTTP layer and the
 * catalog store. Exceptions become `Failure`/`Fail` values.
 */
module Services {
  import opened Wrappers
  import opened Entity
  import opened Exceptions
  import opened Repositories

  /** The message of the business error raised for a duplicate ISBN. */
  const DuplicateIsbnMessage: string := "ISBN já cadastrado."

  /** What a service call can fail with: a `BusinessException`, or an `IllegalArgumentException`. */
  datatype ServiceError = BusinessError(exception: BusinessException) | InvalidArgument

  class BookServiceImpl {
    /** The injected store; the service holds no other state. */
    const repository: CatalogStore

    constructor (repository: CatalogStore)
      ensures this.repository == repository
    {
      this.repository := repository;
    }

    /**
     * `save`: refuses a book whose ISBN is already stored, writing nothing;
     * otherwise hands the book to the store's `save` and returns what it stored.
     */
    method Save(book: Book) returns (r: Result<Book, ServiceError>)
      requires repository.Valid()
      modifies repository
      ensures repository.Valid()
      ensures r.Failure? <==> old(repository.ExistsByIsbn(book.isbn))
      ensures r.Failure? ==>
        r.error == BusinessError(BusinessException(DuplicateIsbnMessage)) && unchanged(repository)
      ensures r.Success? ==>
        && r.value == book.(id := Some(KeyFor(old(repository.table), old(repository.nextId), book)))
        && repository.table == old(repository.table)[r.value.id.value := r.value]
        && repository.nextId == (if r.value.id.value == old(repository.nextId) then old(repository.nextId) + 1 else old(repository.nextId))
        && repository.calls == old(repository.calls) + [SaveCall(book)]
      ensures r.Success? ==>
        && r.value.id.Some? && r.value.isbn == book.isbn
        && r.value.title == book.title && r.value.author == book.author
        && repository.ExistsByIsbn(book.isbn)
      ensures old(UniqueIsbns(repository.table)) ==> UniqueIsbns(repository.table)
    {
      if repository.ExistsByIsbn(book.isbn) {
        return Failure(BusinessError(BusinessException(DuplicateIsbnMessage)));
      }
      ghost var before := repository.table;
      var saved := repository.Save(book);
      if UniqueIsbns(before) {
        PutKeepsUniqueIsbns(before, saved.id.value, saved);
      }
      r := Success(saved);
    }

    /** `getById`, as implemented: a stub that finds nothing, whatever is stored. */
    function GetById(id: int): (r: Option<Book>)
      ensures r.None?
    {
      None
    }

    /**
     * `delete`: a book without an id is an invalid argument and the store is
     * not touched; otherwise the store's `delete` is called once with the book.
     */
    method Delete(book: Book) returns (r: Outcome<ServiceError>)
      requires repository.Valid()
      modifies repository
      ensures repository.Valid()
      ensures r.Fail? <==> book.id.None?
      ensures r.Fail? ==> r.error == InvalidArgument && unchanged(repository)
      ensures r.Pass? ==>
        && repository.table == old(repository.table) - {book.id.value}
        && repository.nextId == old(repository.nextId)
        && repository.calls == old(repository.calls) + [DeleteCall(book)]
        && repository.FindById(book.id.value).None?
      ensures old(UniqueIsbns(repository.table)) ==> UniqueIsbns(repository.table)
    {
      if book.id.None? {
        return Fail(InvalidArgument);
      }
      ghost var before := repository.table;
      repository.Delete(book);
      if UniqueIsbns(before) {
        RemoveKeepsUniqueIsbns(before, book.id.value);
      }
      r := Pass;
    }

    /**
     * `update`: a book without an id is an invalid argument and the store is
     * not touched; otherwise the store's `save` is called once with the book,
     * and what it returned is returned. The ISBN is not checked again.
     */
    method Update(book: Book) returns (r: Result<Book, ServiceError>)
      requires repository.Valid()
      modifies repository
      ensures repository.Valid()
      ensures r.Failure? <==> book.id.None?
      ensures r.Failure? ==> r.error == InvalidArgument && unchanged(repository)
      ensures r.Success? ==>
        && r.value == book.(id := Some(KeyFor(old(repository.table), old(repository.nextId), book)))
        && repository.table == old(repository.table)[r.value.id.value := r.value]
        && repository.nextId == (if r.value.id.value == old(repository.nextId) then old(repository.nextId) + 1 else old(repository.nextId))
        && repository.calls == old(repository.calls) + [SaveCall(book)]
      ensures r.Success? && book.id.value in old(repository.table) ==>
        r.value == book && repository.FindById(book.id.value) == Some(book)
      ensures
        && old(UniqueIsbns(repository.table))
        && book.id.Some? && book.id.value in old(repository.table)
        && book.isbn == old(repository.table)[book.id.value].isbn
        ==> UniqueIsbns(repository.table)
    {
      if book.id.None? {
        return Failure(InvalidArgument);
      }
      ghost var before := repository.table;
      var saved := repository.Save(book);
      if UniqueIsbns(before) && book.id.value in before && book.isbn == before[book.id.value].isbn {
        PutKeepsUniqueIsbns(before, saved.id.value, saved);
      }
      r := Success(saved);
    }
  }
}
