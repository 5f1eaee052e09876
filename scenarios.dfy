/**
 * Client code that replays the repository's unit-test scenarios against the
 * model, relying only on the contracts of the store, the service and the
 * error list.
 */
module Scenarios {
  import opened Wrappers
  import opened Entity
  import opened Exceptions
  import opened Repositories
  import opened Services
  import opened ApiException

  /** Saving a new book into an empty catalog gives it the first id and keeps its fields; the store then finds it. */
  method SaveNewBook() returns (r: Result<Book, ServiceError>, found: Option<Book>)
    ensures r == Success(Book(Some(1), "Teste", "Fulano", "1234"))
    ensures found == Some(r.value)
  {
    var store := new CatalogStore();
    var service := new BookServiceImpl(store);
    r := service.Save(Book(None, "Teste", "Fulano", "1234"));
    found := store.FindById(1);
  }

  /**
   * Saving two books with one ISBN: the second call fails with the business
   * error, the store's `save` ran once, and the error payload is that one message.
   */
  method DuplicateIsbn() returns (store: CatalogStore, first: Result<Book, ServiceError>, second: Result<Book, ServiceError>, payload: seq<string>)
    ensures first.Success? && first.value.id.Some?
    ensures second == Failure(BusinessError(BusinessException(DuplicateIsbnMessage)))
    ensures store.calls == [SaveCall(Book(None, "As Aventuras", "Eduardo", "147852"))]
    ensures payload == ["ISBN já cadastrado."]
  {
    store := new CatalogStore();
    var service := new BookServiceImpl(store);
    first := service.Save(Book(None, "As Aventuras", "Eduardo", "147852"));
    second := service.Save(Book(None, "Outro", "Outra", "147852"));
    var errors := new ApiErrors.FromBusinessException(second.error.exception);
    payload := errors.GetErrors();
  }

  /** `getById` returns nothing for a book that the store does find under the same id. */
  method GetByIdMissesStoredBook() returns (id: int, viaService: Option<Book>, viaStore: Option<Book>)
    ensures viaService.None?
    ensures viaStore == Some(Book(Some(id), "Teste", "Fulano", "1234"))
  {
    var store := new CatalogStore();
    var service := new BookServiceImpl(store);
    var saved := store.Save(Book(None, "Teste", "Fulano", "1234"));
    id := saved.id.value;
    viaService := service.GetById(id);
    viaStore := store.FindById(id);
  }

  /** Deleting and updating a book without an id both fail and leave the store uncalled. */
  method MissingId() returns (store: CatalogStore, deleted: Outcome<ServiceError>, updated: Result<Book, ServiceError>)
    ensures deleted == Fail(InvalidArgument)
    ensures updated == Failure(InvalidArgument)
    ensures store.calls == [] && store.table == map[]
  {
    store := new CatalogStore();
    var service := new BookServiceImpl(store);
    var book := Book(None, "", "", "");
    deleted := service.Delete(book);
    updated := service.Update(book);
  }

  /** Deleting a stored book calls the store's `delete` once with it, after which it is gone. */
  method DeleteStoredBook() returns (store: CatalogStore, deleted: Outcome<ServiceError>, found: Option<Book>)
    ensures deleted == Pass
    ensures store.calls == [SaveCall(Book(None, "Teste", "Fulano", "1234")), DeleteCall(Book(Some(1), "Teste", "Fulano", "1234"))]
    ensures found.None?
  {
    store := new CatalogStore();
    var service := new BookServiceImpl(store);
    var saved := store.Save(Book(None, "Teste", "Fulano", "1234"));
    deleted := service.Delete(saved);
    found := store.FindById(1);
  }

  /** Updating a stored book replaces its row and returns the new title and author under the same id and ISBN. */
  method UpdateStoredBook() returns (updated: Result<Book, ServiceError>, found: Option<Book>)
    ensures updated == Success(Book(Some(1), "Novo", "Autora", "1234"))
    ensures found == Some(updated.value)
  {
    var store := new CatalogStore();
    var service := new BookServiceImpl(store);
    var saved := service.Save(Book(None, "Teste", "Fulano", "1234"));
    updated := service.Update(saved.value.(title := "Novo", author := "Autora"));
    found := store.FindById(1);
  }

  /** A counterexample, not a test: `update` does not check the ISBN again: giving a stored id another book's ISBN leaves two rows with that ISBN. */
  method UpdateCanDuplicateIsbn() returns (store: CatalogStore, updated: Result<Book, ServiceError>)
    ensures updated == Success(Book(Some(2), "Segundo", "Autora", "111"))
    ensures store.table.Keys == {1, 2} && store.table[1].isbn == store.table[2].isbn == "111"
    ensures !UniqueIsbns(store.table)
  {
    store := new CatalogStore();
    var service := new BookServiceImpl(store);
    var first := service.Save(Book(None, "Primeiro", "Autor", "111"));
    var second := service.Save(Book(None, "Segundo", "Autora", "222"));
    updated := service.Update(second.value.(isbn := "111"));
    assert store.table[1].isbn == store.table[2].isbn;
  }

  /** A request body missing its three required fields yields three messages, in the order they were reported. */
  method MissingFields(titleMessage: string, authorMessage: string, isbnMessage: string) returns (payload: seq<string>)
    ensures |payload| == 3
    ensures payload == [titleMessage, authorMessage, isbnMessage]
  {
    var result := BindingResult([
      ObjectError("bookDTO", titleMessage),
      ObjectError("bookDTO", authorMessage),
      ObjectError("bookDTO", isbnMessage)
    ]);
    var errors := new ApiErrors.FromBindingResult(result);
    payload := errors.GetErrors();
  }
}
